/**
  The fatal paths of the interpreter. The source aborts the process (exit,
  assert, a null dereference, a loop that never ends, signed overflow); the
  model returns one of these instead.
*/
module Faults {

  datatype Fault =
    /** lisp_lex: no pattern matches at this offset, so the lexer loops forever. */
    | Stuck(pos: nat)
    /** lex_yylex read past the end of its input before every simulation rejected. */
    | ReadPastEnd
    /** The parser asked the token iterator for a token past the end. */
    | TokensExhausted
    /** A null value was dereferenced. */
    | NullValue
    /** A signed integer overflowed its C type. */
    | IntegerOverflow
    /** get_args: wrong number of arguments. */
    | WrongArgCount(fname: string, expected: nat, got: nat)
    /** get_args: argument index has the wrong type (types by tp_name). */
    | WrongArgType(fname: string, index: nat, expectedType: string, gotType: string)
    /** lisp_add: a non-integer argument. */
    | AddTypeError
    /** lisp_subtract: no arguments. */
    | SubtractTooFew
    /** lisp_subtract: a non-integer argument. */
    | SubtractWrongType
    /** lisp_car of an empty list. */
    | CarOfEmpty
    /** lisp_evaluate: an identifier missing from the current scope's table. */
    | Unbound(name: string)
    /** lisp_evaluate: the function position is not a builtin ("error in evaluation"). */
    | NotCallable
    /** lisp_evaluate: an expression of a type it has no case for. */
    | NotEvaluable
    /** A value of a type whose printer is not part of this model. */
    | Unprintable
    /** A reference to an object that was never allocated or was already freed. */
    | Dangling
}
