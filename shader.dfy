/**
  The shader: the intensity-to-glyph scale of `MonoGlyph.get_shade` and the
  true-colour envelope of `MonoGlyph.color_char`. Intensities are exact reals
  here, where the Python code uses floats.
 */
module Shader {
  import opened Options
  import opened Decimal
  import opened Strings

  /** `SHADE_CHARS`: nine glyphs of increasing visual density. */
  const ShadeChars: string := ".:-=+*#%@"

  /** The ESC control character (0x1B) that opens every control sequence. */
  const Esc: char := 27 as char

  /** Select Graphic Rendition 38;2 (true-colour foreground), up to the red component. */
  const SgrTrueColour: string := [Esc] + "[38;2;"

  /** Select Graphic Rendition 0: reset all attributes. */
  const SgrReset: string := [Esc] + "[0m"

  /** `max(0.0, min(1.0, intensity))`. */
  function Clamp01(v: real): (c: real)
    ensures 0.0 <= c <= 1.0
    ensures 0.0 <= v <= 1.0 ==> c == v
    ensures v <= 0.0 ==> c == 0.0
    ensures v >= 1.0 ==> c == 1.0
  {
    if v < 0.0 then 0.0 else if v > 1.0 then 1.0 else v
  }

  /**
    The density level `get_shade` picks: -1 stands for the default glyph,
    otherwise the index `int(clamped * 8)` into ShadeChars.
   */
  function ShadeLevel(intensity: real): (level: int)
    ensures -1 <= level < |ShadeChars|
    ensures level == -1 <==> intensity <= 0.0
    ensures intensity >= 1.0 ==> level == |ShadeChars| - 1
    ensures intensity > 0.0 ==>
      level as real <= Clamp01(intensity) * (|ShadeChars| - 1) as real < (level + 1) as real
  {
    var clamped := Clamp01(intensity);
    if clamped <= 0.0 then -1 else (clamped * (|ShadeChars| - 1) as real).Floor
  }

  /** `get_shade`: the glyph for an intensity, the canvas default below the scale. */
  function Shade(defaultChar: string, intensity: real): (g: string)
    ensures intensity <= 0.0 ==> g == defaultChar
    ensures intensity >= 1.0 ==> g == "@"
    ensures intensity > 0.0 ==> |g| == 1 && g[0] in ShadeChars
    ensures intensity > 0.0 ==> g == [ShadeChars[ShadeLevel(intensity)]]
  {
    var level := ShadeLevel(intensity);
    if level < 0 then defaultChar else [ShadeChars[level]]
  }

  /**
    A brighter intensity never selects a lower shade level. The default glyph
    is level -1, so this is about the level, not about how dense the glyph is.
   */
  lemma ShadeMonotone(a: real, b: real)
    requires a <= b
    ensures ShadeLevel(a) <= ShadeLevel(b)
  {
    if a > 0.0 {
      var ca, cb := Clamp01(a), Clamp01(b);
      assert ca * 8.0 <= cb * 8.0;
    }
  }

  /**
    `color_char`: the pieces of its f-string joined, the glyph between a
    true-colour SGR `ESC [ 38 ; 2 ; r ; g ; b m` and an SGR reset.
   */
  function ColorChar(glyph: string, r: int, g: int, b: int): string {
    Concat([SgrTrueColour, IntToString(r), ";", IntToString(g), ";", IntToString(b), "m", glyph, SgrReset])
  }

  /** The envelope's pieces, regrouped so that each separator leads what follows it. */
  lemma Regroup(open: string, rs: string, gs: string, bs: string, glyph: string, reset: string)
    ensures "" + open + rs + ";" + gs + ";" + bs + "m" + glyph + reset
      == open + (rs + [';'] + (gs + [';'] + (bs + ['m'] + (glyph + reset))))
  {
  }

  /** A coloured cell laid out: the introducer, the three numerals with their separators, the glyph, the reset. */
  lemma ColorCharPieces(glyph: string, r: int, g: int, b: int)
    ensures ColorChar(glyph, r, g, b) ==
      SgrTrueColour + (IntToString(r) + [';'] + (IntToString(g) + [';'] + (IntToString(b) + ['m'] + (glyph + SgrReset))))
  {
    var parts := [SgrTrueColour, IntToString(r), ";", IntToString(g), ";", IntToString(b), "m", glyph, SgrReset];
    assert parts[..0] == [] && parts[..9] == parts;
    ConcatPrefix(parts, 0);
    ConcatPrefix(parts, 1);
    ConcatPrefix(parts, 2);
    ConcatPrefix(parts, 3);
    ConcatPrefix(parts, 4);
    ConcatPrefix(parts, 5);
    ConcatPrefix(parts, 6);
    ConcatPrefix(parts, 7);
    ConcatPrefix(parts, 8);
    Regroup(SgrTrueColour, IntToString(r), IntToString(g), IntToString(b), glyph, SgrReset);
  }

  /** A coloured cell is longer than its glyph and opens and closes with the two SGR sequences. */
  lemma ColorCharEnvelope(glyph: string, r: int, g: int, b: int)
    ensures var s := ColorChar(glyph, r, g, b);
      |s| > |SgrTrueColour| + |SgrReset| + |glyph| &&
      s[..|SgrTrueColour|] == SgrTrueColour &&
      s[|s| - |SgrReset|..] == SgrReset
  {
    var s := ColorChar(glyph, r, g, b);
    var middle := IntToString(r) + [';'] + (IntToString(g) + [';'] + (IntToString(b) + ['m'] + glyph));
    ColorCharPieces(glyph, r, g, b);
    assert s == SgrTrueColour + middle + SgrReset;
  }

  /** What a colour envelope carries. */
  datatype Coloured = Coloured(glyph: string, r: int, g: int, b: int)

  /** Reads a colour envelope back into its glyph and components. */
  function DecodeColour(s: string): Option<Coloured> {
    if |s| < |SgrTrueColour| || s[..|SgrTrueColour|] != SgrTrueColour then None
    else
      match SplitAtFirst(s[|SgrTrueColour|..], ';')
      case None => None
      case Some(red) =>
        match SplitAtFirst(red.1, ';')
        case None => None
        case Some(green) =>
          match SplitAtFirst(green.1, 'm')
          case None => None
          case Some(blue) =>
            var body := blue.1;
            if |body| < |SgrReset| || body[|body| - |SgrReset|..] != SgrReset then None
            else
              match (ParseInt(red.0), ParseInt(green.0), ParseInt(blue.0))
              case (Some(r), Some(g), Some(b)) => Some(Coloured(body[..|body| - |SgrReset|], r, g, b))
              case _ => None
  }

  /** A decimal numeral holds neither of the envelope's separators. */
  lemma IntToStringPlain(i: int)
    ensures ';' !in IntToString(i) && 'm' !in IntToString(i)
  {
    IntToStringChars(i);
  }

  /**
    An envelope laid out from three separator-free numerals and a glyph
    decodes to that glyph and the numerals' values.
   */
  lemma DecodeLayout(rs: string, gs: string, bs: string, glyph: string, r: int, g: int, b: int)
    requires ';' !in rs && ';' !in gs && 'm' !in bs
    requires ParseInt(rs) == Some(r) && ParseInt(gs) == Some(g) && ParseInt(bs) == Some(b)
    ensures DecodeColour(SgrTrueColour + (rs + [';'] + (gs + [';'] + (bs + ['m'] + (glyph + SgrReset)))))
      == Some(Coloured(glyph, r, g, b))
  {
    var tail := glyph + SgrReset;
    var after := rs + [';'] + (gs + [';'] + (bs + ['m'] + tail));
    var s := SgrTrueColour + after;
    assert s[..|SgrTrueColour|] == SgrTrueColour;
    assert s[|SgrTrueColour|..] == after;
    SplitAtFirstOf(rs, ';', gs + [';'] + (bs + ['m'] + tail));
    SplitAtFirstOf(gs, ';', bs + ['m'] + tail);
    SplitAtFirstOf(bs, 'm', tail);
    assert tail[|tail| - |SgrReset|..] == SgrReset;
    assert tail[..|tail| - |SgrReset|] == glyph;
  }

  /** The envelope loses nothing: glyph and components can be read back exactly. */
  lemma ColorCharRoundTrip(glyph: string, r: int, g: int, b: int)
    ensures DecodeColour(ColorChar(glyph, r, g, b)) == Some(Coloured(glyph, r, g, b))
  {
    var rs, gs, bs := IntToString(r), IntToString(g), IntToString(b);
    IntToStringPlain(r);
    IntToStringPlain(g);
    IntToStringPlain(b);
    IntToStringRoundTrip(r);
    IntToStringRoundTrip(g);
    IntToStringRoundTrip(b);
    ColorCharPieces(glyph, r, g, b);
    DecodeLayout(rs, gs, bs, glyph, r, g, b);
  }
}
