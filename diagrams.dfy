/**
 * The railroad diagram as a tree of the Python `railroad` library's calls,
 * and the text of the call expression that builds it.
 */
module Diagrams {
  import opened Wrappers
  import opened Literals
  import opened Classes

  datatype Diagram =
    | Sequence(items: seq<Diagram>)
    /** `Choice(0, …)`; `more` marks a list cut short by an ellipsis. */
    | Choice(items: seq<Diagram>, more: bool)
    | Group(item: Diagram, name: string)
    | OneOrMore(item: Diagram, comment: Option<string>)
    | ZeroOrMore(item: Diagram)
    | Optional(item: Diagram)
    | Skip
    | Start
    | End
    /** A literal, already written in Python quoting. */
    | Terminal(literal: string)

  /** The Python expression for `d`: every argument is followed by `, `. */
  function Print(d: Diagram): string
    decreases d, 0
  {
    match d
    case Sequence(ds) => "Sequence(" + PrintAll(ds) + ")"
    case Choice(ds, more) => "Choice(0, " + PrintAll(ds) + (if more then Ellipsis else "") + ")"
    case Group(e, name) => "Group(" + Print(e) + ", " + Quoted(name) + ")"
    case OneOrMore(e, None) => "OneOrMore(" + Print(e) + ")"
    case OneOrMore(e, Some(c)) => "OneOrMore(" + Print(e) + ", Comment(" + Quoted(c) + "))"
    case ZeroOrMore(e) => "ZeroOrMore(" + Print(e) + ")"
    case Optional(e) => "Optional(" + Print(e) + ")"
    case Skip => "Skip()"
    case Start => "Start()"
    case End => "End()"
    case Terminal(s) => s
  }

  /** The arguments `ds`, in order, each followed by `, `. */
  function PrintAll(ds: seq<Diagram>): string
    decreases ds, 1
  {
    if ds == [] then "" else PrintAll(ds[..|ds| - 1]) + Print(ds[|ds| - 1]) + ", "
  }
}
