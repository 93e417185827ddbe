/** `testCondition`: the sixteen condition codes over the flags. */
module Conditions {
  import opened Cores

  datatype Condition = EQ | NE | CS | CC | MI | PL | VS | VC | HI | LS | GE | LT | GT | LE | AL | A2

  const CONDITIONS: seq<Condition> := [EQ, NE, CS, CC, MI, PL, VS, VC, HI, LS, GE, LT, GT, LE, AL, A2]

  predicate TestCondition(state: Flags, cond: Condition) {
    match cond
    case EQ => state.z
    case NE => !state.z
    case CS => state.c
    case CC => !state.c
    case MI => state.n
    case PL => !state.n
    case VS => state.v
    case VC => !state.v
    case HI => state.c && !state.z
    case LS => !(state.c && !state.z)
    case GE => state.n == state.v
    case LT => !(state.n == state.v)
    case GT => state.n == state.v && !state.z
    case LE => !(state.n == state.v && !state.z)
    case AL => true
    case A2 => true
  }
}
