/**
 * The parsed expression tree `descent` walks: the parts of `regex_syntax`'s
 * `Hir` that it matches on, as plain values.
 */
module Syntax {
  import opened RangeSets

  /** A `u8`. */
  newtype Octet = x: int | 0 <= x < 256

  datatype LiteralKind = Unicode(c: char) | Byte(b: Octet)

  datatype ClassKind = UnicodeClass(ranges: RangeSet) | BytesClass(byteRanges: seq<(Octet, Octet)>)

  datatype AnchorKind = StartLine | EndLine | StartText | EndText

  datatype BoundaryKind = UnicodeBoundary | UnicodeNegateBoundary | AsciiBoundary | AsciiNegateBoundary

  datatype GroupKind = CaptureIndex(index: nat) | CaptureName(name: string, index: nat) | NonCapturing

  /** The bounds of a counted repetition `{n}`, `{n,}` or `{min,max}`. */
  datatype RepetitionRange = Exactly(count: nat) | AtLeast(min: nat) | Bounded(min: nat, max: nat)

  datatype RepetitionKind = ZeroOrOne | ZeroOrMore | OneOrMore | Range(range: RepetitionRange)

  datatype Hir =
    | Empty
    | Literal(literal: LiteralKind)
    | Class(cls: ClassKind)
    | Anchor(anchor: AnchorKind)
    | WordBoundary(boundary: BoundaryKind)
    | Repetition(kind: RepetitionKind, greedy: bool, sub: Hir)
    | Group(group: GroupKind, sub: Hir)
    | Concat(items: seq<Hir>)
    | Alternation(items: seq<Hir>)

  /** Why `descent` panics: its two `todo!`s and the `unreachable!` on repetition bounds. */
  datatype Panic = ByteLiteral | ByteClass | UnreachableBounds(range: RepetitionRange)
}
