/** The operators of the language, shared by the parser's trees and the scalar
    trees the translator gives a meaning to. */
module Operators {
  datatype BinOp =
    | Mul | RDiv | IDiv | Mod | And
    | Add | Sub | Or
    | Eq | Ne | Lt | Le | Gt | Ge
    | AndThen

  datatype UnOp = Neg | Not
}
