/**
 The text buffer that flows through the sanitizer pipeline: a sequence of
 Unicode code points. Like a Python `str`, it may hold lone surrogates, so a
 code point is any integer in [0, 0x10FFFF] rather than a Dafny `char`.
 */
module CodePoints {

  type CodePoint = c: int | 0 <= c < 0x11_0000

  type Text = seq<CodePoint>

  const LineFeed: CodePoint := 0x0A
  const Exclamation: CodePoint := 0x21
  const HyphenMinus: CodePoint := 0x2D
  const LessThan: CodePoint := 0x3C
  const GreaterThan: CodePoint := 0x3E
  const CommercialAt: CodePoint := 0x40
  const VerticalLine: CodePoint := 0x7C
  const ZeroWidthSpace: CodePoint := 0x200B
  const RightToLeftOverride: CodePoint := 0x202E

  /** The code points of an ASCII string literal, for writing examples. */
  function Ascii(s: string): Text
    requires forall i :: 0 <= i < |s| ==> s[i] as int < 0x80
  {
    seq(|s|, i requires 0 <= i < |s| => s[i] as int)
  }
}
