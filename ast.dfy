/** The syntax tree the lexer's tokens are meant to build (src/ast.rs). The source
    declares these types and no operations on them. */
module Ast {
  import Tokens

  /** Configuration entries, from key to value. */
  datatype Config = Config(entries: map<string, string>)

  /** A register: its name and its named fields with their values. */
  datatype Register = Register(name: string, mappings: seq<(string, Tokens.u32)>)

  /** A declaration: a register of its own, a plain alias of another register,
      or an alias restricted by a second name. */
  datatype RalEntry =
    | RawRegister(register: Register)
    | Alias(target: string)
    | RestrictedAlias(target: string, restriction: string)

  /** A whole description: its configuration and its declarations by name. */
  datatype Ral = Ral(config: Config, registers: map<string, RalEntry>)
}
