/** The ANSI colour table and the colouring of drop strings. */
module Palette {

  /** The escape character that opens every ANSI colour sequence. */
  const ESC: char := '\U{1B}'

  /** Colour names and their ANSI escape sequences; both "reset" and "Reset"
      are keys, and they map to the same sequence. */
  const COLORS: map<string, string> := map[
    "black" := [ESC] + "[30m",
    "red" := [ESC] + "[31m",
    "green" := [ESC] + "[32m",
    "yellow" := [ESC] + "[33m",
    "blue" := [ESC] + "[34m",
    "magenta" := [ESC] + "[35m",
    "cyan" := [ESC] + "[36m",
    "white" := [ESC] + "[37m",
    "reset" := [ESC] + "[0m",
    "b_black" := [ESC] + "[30;1m",
    "b_red" := [ESC] + "[31;1m",
    "b_green" := [ESC] + "[32;1m",
    "b_yellow" := [ESC] + "[33;1m",
    "b_blue" := [ESC] + "[34;1m",
    "b_magenta" := [ESC] + "[35;1m",
    "b_cyan" := [ESC] + "[36;1m",
    "b_white" := [ESC] + "[37;1m",
    "Reset" := [ESC] + "[0m"
  ]

  /** The sequence that ends every colourised string. */
  const RESET: string := [ESC] + "[0m"

  /** A colour that may be used under the given mode: in monochrome mode the
      name is never looked up, otherwise it must be a key of COLORS. */
  predicate Usable(monochrome: bool, color: string) {
    monochrome || color in COLORS
  }

  /** colorize_string: the string itself in monochrome mode, otherwise the
      string wrapped in the colour's escape sequence and the reset sequence.
      Looking up an unknown colour is a KeyError; callers only pass names that
      were validated, which the precondition records. */
  function ColorizeString(monochrome: bool, s: string, color: string): (r: string)
    requires Usable(monochrome, color)
    ensures monochrome ==> r == s
    ensures !monochrome ==> |r| == |COLORS[color]| + |s| + |RESET|
  {
    if monochrome then s else COLORS[color] + s + COLORS["Reset"]
  }

  /** The inverse of ColorizeString: strips the colour prefix and the reset
      suffix, or fails when they are not there. */
  function Decolorize(monochrome: bool, r: string, color: string): (s: Option<string>)
    requires Usable(monochrome, color)
    ensures s.Some? && !monochrome ==> COLORS[color] + s.value + RESET == r
    ensures s.Some? && monochrome ==> s.value == r
  {
    if monochrome then Some(r)
    else
      var pre := COLORS[color];
      if |pre| + |RESET| <= |r| && r[..|pre|] == pre && r[|r| - |RESET|..] == RESET
      then
        assert r == r[..|pre|] + r[|pre|..|r| - |RESET|] + r[|r| - |RESET|..];
        Some(r[|pre|..|r| - |RESET|])
      else None
  }

  /** Undoing the colouring gives back the original string, in both modes. */
  lemma DecolorizeColorize(monochrome: bool, s: string, color: string)
    requires Usable(monochrome, color)
    ensures Decolorize(monochrome, ColorizeString(monochrome, s, color), color) == Some(s)
  {
    if !monochrome {
      var pre, r := COLORS[color], ColorizeString(monochrome, s, color);
      assert r[..|pre|] == pre;
      assert r[|r| - |RESET|..] == RESET;
      assert r[|pre|..|r| - |RESET|] == s;
    }
  }

  /** Colouring is injective in the string: two drops that show the same text
      come from the same glyph. */
  lemma ColorizeInjective(monochrome: bool, s: string, t: string, color: string)
    requires Usable(monochrome, color)
    requires ColorizeString(monochrome, s, color) == ColorizeString(monochrome, t, color)
    ensures s == t
  {
    DecolorizeColorize(monochrome, s, color);
    DecolorizeColorize(monochrome, t, color);
  }

  datatype Option<T> = None | Some(value: T)
}
