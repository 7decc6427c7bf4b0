/** printer.rs and reader.rs: values as text. */
module LispText {
  import opened Wrappers
  import opened LispValues

  /* ----- characters and tokens ----- */

  /** Unicode white space, and the comma. */
  predicate IsBlank(c: char) {
    c in {' ', ',', '\t', '\n', '\U{B}', '\U{C}', '\r', '\U{85}', '\U{A0}', '\U{1680}', '\U{2028}', '\U{2029}',
          '\U{202F}', '\U{205F}', '\U{3000}'}
    || '\U{2000}' <= c <= '\U{200A}'
  }

  predicate IsBracket(c: char) { c in {'[', ']', '{', '}', '(', ')'} }

  /** What a symbol, number or keyword is made of. */
  predicate IsTokenChar(c: char) { !IsBlank(c) && !IsBracket(c) && c !in {'\'', '"', '`', ';'} }

  /** The one-character tokens. */
  predicate IsSpecial(c: char) { IsBracket(c) || c in {'\'', '`', '~', '^', '@'} }

  function SkipBlanks(s: string): (r: string)
    ensures |r| <= |s|
    ensures r != [] ==> !IsBlank(r[0])
  {
    if s != [] && IsBlank(s[0]) then SkipBlanks(s[1..]) else s
  }

  /** The length of the longest run of token characters. */
  function RunLength(s: string): (n: nat)
    ensures n <= |s|
    ensures s != [] && IsTokenChar(s[0]) ==> n > 0
  {
    if s != [] && IsTokenChar(s[0]) then 1 + RunLength(s[1..]) else 0
  }

  /** The length of the body of a string: escaped characters, other than an escaped line break, and
      characters that are neither quotes nor backslashes. */
  function BodyLength(s: string): (n: nat)
    ensures n <= |s|
  {
    if s == [] || s[0] == '"' then 0
    else if s[0] != '\\' then 1 + BodyLength(s[1..])
    else if |s| >= 2 && s[1] != '\n' then 2 + BodyLength(s[2..])
    else 0
  }

  function LineLength(s: string): (n: nat)
    ensures n <= |s|
  {
    if s == [] || s[0] == '\n' then 0 else 1 + LineLength(s[1..])
  }

  /** The length of the token at the front. */
  function TokenLength(s: string): (n: nat)
    requires s != [] && !IsBlank(s[0])
    ensures 0 < n <= |s|
  {
    if s[0] == '~' && |s| > 1 && s[1] == '@' then 2
    else if IsSpecial(s[0]) then 1
    else if s[0] == '"' then
      var n := 1 + BodyLength(s[1..]);
      if n < |s| && s[n] == '"' then n + 1 else n
    else if s[0] == ';' then 1 + LineLength(s[1..])
    else RunLength(s)
  }

  /** The tokens of a text, without comments. */
  function Tokenize(s: string): seq<string>
    decreases |s|
  {
    var rest := SkipBlanks(s);
    if rest == [] then []
    else
      var n := TokenLength(rest);
      (if rest[0] == ';' then [] else [rest[..n]]) + Tokenize(rest[n..])
  }

  /* ----- numbers ----- */

  predicate IsDigit(c: char) { '0' <= c <= '9' }

  function DigitChar(d: nat): (c: char)
    requires d < 10
    ensures IsDigit(c)
  {
    '0' + d as char
  }

  function DigitValue(c: char): (d: nat)
    requires IsDigit(c)
    ensures d < 10
  {
    (c - '0') as int
  }

  function Digits(n: nat): (s: string)
    ensures s != []
  {
    if n < 10 then [DigitChar(n)] else Digits(n / 10) + [DigitChar(n % 10)]
  }

  predicate AllDigits(s: string) { forall i :: 0 <= i < |s| ==> IsDigit(s[i]) }

  function DigitsValue(s: string): nat
    requires AllDigits(s)
  {
    if s == [] then 0 else 10 * DigitsValue(s[..|s| - 1]) + DigitValue(s[|s| - 1])
  }

  predicate InI64(i: int) { -0x8000_0000_0000_0000 <= i < 0x8000_0000_0000_0000 }

  function IntText(i: int): string { if i < 0 then "-" + Digits(-i) else Digits(i) }

  /** `^-?[0-9]+$` */
  predicate IsIntToken(t: string) {
    if t != [] && t[0] == '-' then |t| > 1 && AllDigits(t[1..]) else t != [] && AllDigits(t)
  }

  function IntValue(t: string): int
    requires IsIntToken(t)
  {
    if t[0] == '-' then 0 - DigitsValue(t[1..]) else DigitsValue(t)
  }

  /* ----- strings ----- */

  function EscapeChar(c: char): string {
    if c == '"' then "\\\"" else if c == '\n' then "\\n" else if c == '\\' then "\\\\" else [c]
  }

  function Escape(s: string): string {
    if s == [] then [] else EscapeChar(s[0]) + Escape(s[1..])
  }

  /** Every backslash with the character after it, other than a line break, is replaced. */
  function Unescape(s: string): string {
    if s == [] then []
    else if s[0] == '\\' && |s| >= 2 && s[1] != '\n' then [if s[1] == 'n' then '\n' else s[1]] + Unescape(s[2..])
    else [s[0]] + Unescape(s[1..])
  }

  const KEYWORD: char := '\U{29E}'

  predicate IsKeyword(s: string) { s != [] && s[0] == KEYWORD }

  /** The pattern for strings is looked for anywhere in the token. */
  predicate HasString(t: string) {
    exists i :: 0 <= i < |t| && t[i] == '"' && ClosedAt(t, i)
  }

  predicate ClosedAt(t: string, i: nat)
    requires i < |t|
  {
    var n := BodyLength(t[i + 1..]);
    i + 1 + n < |t| && t[i + 1 + n] == '"'
  }

  /* ----- printing ----- */

  /** The values that have a text of their own. */
  predicate Printable(v: MalVal) {
    match v
    case List(items) => forall i :: 0 <= i < |items| ==> Printable(items[i])
    case Vector(items) => forall i :: 0 <= i < |items| ==> Printable(items[i])
    case Hash(entries) => forall i :: 0 <= i < |entries| ==> Printable(entries[i].value)
    case Func(_) => false
    case Other(_) => false
    case _ => true
  }

  function PrintStr(s: string, readably: bool): string {
    if IsKeyword(s) then ":" + s[1..] else if readably then "\"" + Escape(s) + "\"" else s
  }

  /** `pr_str` */
  function Print(v: MalVal, readably: bool): string
    requires Printable(v)
    decreases v, 1
  {
    match v
    case Nil => "nil"
    case Bool(b) => if b then "true" else "false"
    case Int(i) => IntText(i)
    case Str(s) => PrintStr(s, readably)
    case Sym(s) => s
    case List(items) => "(" + PrintItems(items, readably) + ")"
    case Vector(items) => "[" + PrintItems(items, readably) + "]"
    case Hash(entries) => "{" + PrintEntries(entries, readably) + "}"
  }

  /** Joined with spaces. */
  function PrintItems(items: seq<MalVal>, readably: bool): string
    requires forall i :: 0 <= i < |items| ==> Printable(items[i])
    decreases items, 0
  {
    if items == [] then ""
    else if |items| == 1 then Print(items[0], readably)
    else Print(items[0], readably) + " " + PrintItems(items[1..], readably)
  }

  function PrintEntries(entries: seq<Entry>, readably: bool): string
    requires forall i :: 0 <= i < |entries| ==> Printable(entries[i].value)
    decreases entries, 0
  {
    if entries == [] then ""
    else
      var pair := PrintStr(entries[0].key, readably) + " " + Print(entries[0].value, readably);
      if |entries| == 1 then pair else pair + " " + PrintEntries(entries[1..], readably)
  }

  /* ----- reading ----- */

  /** A value, and the position of the first token after it. */
  type Read = Result<(MalVal, nat), MalErr>

  /** `read_atom` on one token; a number that does not fit stops the program. */
  function Atom(t: string): MalRet {
    if t == "nil" then Ok(Nil)
    else if t == "false" then Ok(Bool(false))
    else if t == "true" then Ok(Bool(true))
    else if IsIntToken(t) then (if InI64(IntValue(t)) then Ok(Int(IntValue(t))) else Err(Panic))
    else if HasString(t) then (if |t| >= 2 then Ok(Str(Unescape(t[1..|t| - 1]))) else Err(Panic))
    else if t != [] && t[0] == '"' then Err(ErrString("expected '\"', got EOF"))
    else if t != [] && t[0] == ':' then Ok(Str([KEYWORD] + t[1..]))
    else Ok(Sym(t))
  }

  /** Inserting into the map: a key that is there keeps its place. */
  function Insert(entries: seq<Entry>, k: string, v: MalVal): seq<Entry> {
    if entries == [] then [Entry(k, v)]
    else if entries[0].key == k then [Entry(k, v)] + entries[1..]
    else [entries[0]] + Insert(entries[1..], k, v)
  }

  function Assoc(entries: seq<Entry>, kvs: seq<MalVal>): MalRet
    requires |kvs| % 2 == 0
    decreases |kvs|
  {
    if kvs == [] then Ok(Hash(entries))
    else if !kvs[0].Str? then Err(ErrString("key is not string"))
    else Assoc(Insert(entries, kvs[0].text, kvs[1]), kvs[2..])
  }

  function HashMap(kvs: seq<MalVal>): MalRet {
    if |kvs| % 2 != 0 then Err(ErrString("odd number of elements")) else Assoc([], kvs)
  }

  function Close(end: string, items: seq<MalVal>): MalRet
    requires end in {")", "]", "}"}
  {
    if end == ")" then Ok(List(items)) else if end == "]" then Ok(Vector(items)) else HashMap(items)
  }

  function Wrapped(name: string, r: Read): Read {
    match r
    case Err(e) => Err(e)
    case Ok((v, pos)) => Ok((List([Sym(name), v]), pos))
  }

  function ReadForm(tokens: seq<string>, pos: nat): (r: Read)
    ensures r.Ok? ==> pos < r.value.1 <= |tokens|
    decreases |tokens| - pos, 1
  {
    if pos >= |tokens| then Err(ErrString("underflow"))
    else
      var t := tokens[pos];
      if t == "'" then Wrapped("quote", ReadForm(tokens, pos + 1))
      else if t == "`" then Wrapped("quasiquote", ReadForm(tokens, pos + 1))
      else if t == "~" then Wrapped("unquote", ReadForm(tokens, pos + 1))
      else if t == "~@" then Wrapped("splice-unquote", ReadForm(tokens, pos + 1))
      else if t == "@" then Wrapped("deref", ReadForm(tokens, pos + 1))
      else if t == "^" then
        (match ReadForm(tokens, pos + 1)
         case Err(e) => Err(e)
         case Ok((meta, p1)) =>
           match ReadForm(tokens, p1)
           case Err(e) => Err(e)
           case Ok((v, p2)) => Ok((List([Sym("with-meta"), v, meta]), p2)))
      else if t == ")" then Err(ErrString("unexpected ')'"))
      else if t == "]" then Err(ErrString("unexpected ']'"))
      else if t == "}" then Err(ErrString("unexpected '}'"))
      else if t == "(" then ReadSeq(tokens, pos + 1, ")", [])
      else if t == "[" then ReadSeq(tokens, pos + 1, "]", [])
      else if t == "{" then ReadSeq(tokens, pos + 1, "}", [])
      else
        match Atom(t)
        case Err(e) => Err(e)
        case Ok(v) => Ok((v, pos + 1))
  }

  /** The rest of a sequence, after the items read so far. */
  function ReadSeq(tokens: seq<string>, pos: nat, end: string, items: seq<MalVal>): (r: Read)
    requires end in {")", "]", "}"}
    ensures r.Ok? ==> pos < r.value.1 <= |tokens|
    decreases |tokens| - pos, 2
  {
    if pos >= |tokens| then Err(ErrString("expected '" + end + "', got EOF"))
    else if tokens[pos] == end then
      (match Close(end, items)
       case Err(e) => Err(e)
       case Ok(v) => Ok((v, pos + 1)))
    else
      match ReadForm(tokens, pos)
      case Err(e) => Err(e)
      case Ok((v, next)) => ReadSeq(tokens, next, end, items + [v])
  }

  /** Only the first form is read; what follows it is ignored. */
  function ReadStr(s: string): MalRet {
    var tokens := Tokenize(s);
    if tokens == [] then Err(ErrString("no input"))
    else
      match ReadForm(tokens, 0)
      case Err(e) => Err(e)
      case Ok((v, _)) => Ok(v)
  }
}
