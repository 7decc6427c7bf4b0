/** The values of the Lisp front end, without metadata. */
module LispValues {
  import opened Wrappers

  /** The three built-in functions that a quasiquote expands to. */
  datatype Builtin = Cons | Concat | Vec

  /** A hash map is the list of its entries in the order in which it happens to be iterated over. Other
      values (functions, atoms, circuits) are only told apart. */
  datatype MalVal =
    | Nil | Bool(b: bool) | Int(i: int) | Str(text: string) | Sym(name: string)
    | List(items: seq<MalVal>) | Vector(items: seq<MalVal>) | Hash(entries: seq<Entry>)
    | Func(f: Builtin) | Other(id: nat)

  datatype Entry = Entry(key: string, value: MalVal)

  datatype MalErr = ErrString(message: string) | ErrMalVal(v: MalVal) | Panic

  type MalRet = Result<MalVal, MalErr>
}
