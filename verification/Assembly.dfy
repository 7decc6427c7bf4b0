/** The assembly language of compile.py, after its text has been split into commands and symbols.
    Symbols are only ever compared for equality, so any type will do for them. */
module Assembly {
  import opened Bytes
  import opened Circuit

  datatype AllocCommand = Param | Private | Public

  datatype OpCommand =
    | Set | Mul | Add | Sub | Divide | Double | Square | Invert | UnpackBits
    | Load | Local | Debug | DumpAlloc | DumpLocal

  datatype ConstraintCommand =
    | Add(side: Side) | Sub(side: Side) | AddOne(side: Side) | SubOne(side: Side)
    | AddCoeff(side: Side) | AddConstant(side: Side)
    | Enforce | CoeffReset | CoeffDouble

  datatype Command = Alloc(alloc: AllocCommand) | Op(op: OpCommand) | Constrain(constraint: ConstraintCommand) | Other

  /** `text` is what the line prints as; only `debug` uses it. */
  datatype Line<+S> = Line(command: Command, args: seq<S>, text: seq<byte>)

  /** The number of arguments in the command tables; commands in no table are ignored. */
  function Arity(c: Command): nat
    requires !c.Other?
  {
    match c
    case Alloc(_) => 1
    case Op(o) =>
      (match o
       case Set => 2 case Mul => 2 case Add => 2 case Sub => 2 case Divide => 2 case Load => 2
       case Double => 1 case Square => 1 case Invert => 1 case Local => 1 case Debug => 1
       case UnpackBits => 3
       case DumpAlloc => 0 case DumpLocal => 0)
    case Constrain(k) =>
      (match k
       case Add(_) => 1 case Sub(_) => 1 case AddConstant(_) => 1
       case AddCoeff(_) => 2
       case AddOne(_) => 0 case SubOne(_) => 0 case Enforce => 0 case CoeffReset => 0 case CoeffDouble => 0)
  }
}
