/** Reading the readable text of a value gives the value back. */
module LispRoundTrip {
  import opened Wrappers
  import opened LispValues
  import opened LispText

  /* ----- the values in question ----- */

  predicate TokenSafe(s: string) { forall i :: 0 <= i < |s| ==> IsTokenChar(s[i]) }

  /** A symbol that is one token, and that is not read as something else. */
  predicate SafeSymbol(s: string) {
    && s != [] && TokenSafe(s) && !IsSpecial(s[0]) && s[0] != ':' && !IsIntToken(s)
    && s != "nil" && s != "true" && s != "false"
  }

  /** Any string; a keyword has to be one token. */
  predicate SafeString(s: string) { IsKeyword(s) ==> TokenSafe(s[1..]) }

  predicate DistinctKeys(entries: seq<Entry>) {
    forall i, j :: 0 <= i < j < |entries| ==> entries[i].key != entries[j].key
  }

  predicate Readable(v: MalVal) {
    match v
    case Int(i) => InI64(i)
    case Str(s) => SafeString(s)
    case Sym(s) => SafeSymbol(s)
    case List(items) => forall i :: 0 <= i < |items| ==> Readable(items[i])
    case Vector(items) => forall i :: 0 <= i < |items| ==> Readable(items[i])
    case Hash(entries) =>
      DistinctKeys(entries) && forall i :: 0 <= i < |entries| ==>
        SafeString(entries[i].key) && Readable(entries[i].value)
    case Func(_) => false
    case Other(_) => false
    case _ => true
  }

  lemma {:induction false} ReadableIsPrintable(v: MalVal)
    requires Readable(v)
    ensures Printable(v)
    decreases v
  {
    match v {
      case List(items) => forall i | 0 <= i < |items| ensures Printable(items[i]) { ReadableIsPrintable(items[i]); }
      case Vector(items) => forall i | 0 <= i < |items| ensures Printable(items[i]) { ReadableIsPrintable(items[i]); }
      case Hash(entries) =>
        forall i | 0 <= i < |entries| ensures Printable(entries[i].value) { ReadableIsPrintable(entries[i].value); }
      case _ =>
    }
  }

  /* ----- single tokens ----- */

  /** A text that ends a token: nothing, or a space or closing bracket. */
  predicate Ends(rest: string) { rest == [] || rest[0] in {' ', ')', ']', '}'} }

  lemma {:induction false} RunOf(t: string, rest: string)
    requires TokenSafe(t) && Ends(rest)
    ensures RunLength(t + rest) == |t|
  {
    if t == [] {
      assert t + rest == rest;
    } else {
      assert (t + rest)[1..] == t[1..] + rest;
      RunOf(t[1..], rest);
    }
  }

  lemma RunToken(t: string, rest: string)
    requires t != [] && TokenSafe(t) && !IsSpecial(t[0]) && Ends(rest)
    ensures Tokenize(t + rest) == [t] + Tokenize(rest)
  {
    RunOf(t, rest);
    var s := t + rest;
    assert s[0] == t[0] && SkipBlanks(s) == s && TokenLength(s) == |t|;
    assert s[..|t|] == t && s[|t|..] == rest;
  }

  /** One escaped character, in the body of a string and when it is read back. */
  lemma EscapedChar(c: char, t: string)
    ensures BodyLength(EscapeChar(c) + t) == |EscapeChar(c)| + BodyLength(t)
    ensures Unescape(EscapeChar(c) + t) == [c] + Unescape(t)
  {
    var s := EscapeChar(c) + t;
    if c == '"' || c == '\n' || c == '\\' {
      assert s[0] == '\\' && s[1] != '\n' && s[2..] == t;
    } else {
      assert s[0] == c && s[1..] == t;
    }
  }

  lemma {:induction false} BodyOf(s: string, rest: string)
    ensures BodyLength(Escape(s) + ("\"" + rest)) == |Escape(s)|
  {
    hide EscapeChar, BodyLength, Unescape;
    if s == [] {
      assert Escape(s) + ("\"" + rest) == "\"" + rest;
      NoBody(rest);
    } else {
      BodyOf(s[1..], rest);
      var more := Escape(s[1..]) + ("\"" + rest);
      assert Escape(s) + ("\"" + rest) == EscapeChar(s[0]) + more;
      EscapedChar(s[0], more);
    }
  }

  lemma NoBody(rest: string)
    ensures BodyLength("\"" + rest) == 0
  {}

  lemma StringToken(s: string, rest: string)
    ensures var t := "\"" + Escape(s) + "\""; Tokenize(t + rest) == [t] + Tokenize(rest)
  {
    var t := "\"" + Escape(s) + "\"";
    var all := t + rest;
    BodyOf(s, rest);
    assert all[1..] == Escape(s) + ("\"" + rest) && all[0] == '"';
    assert SkipBlanks(all) == all && TokenLength(all) == |t|;
    assert all[..|t|] == t && all[|t|..] == rest;
  }

  lemma BracketToken(c: char, rest: string)
    requires IsBracket(c)
    ensures Tokenize([c] + rest) == [[c]] + Tokenize(rest)
  {
    var s := [c] + rest;
    assert SkipBlanks(s) == s && TokenLength(s) == 1 && s[..1] == [c] && s[1..] == rest;
  }

  lemma SpaceSkipped(rest: string)
    ensures Tokenize(" " + rest) == Tokenize(rest)
  {
    assert (" " + rest)[1..] == rest;
  }

  /* ----- numbers ----- */

  lemma {:induction false} DigitsAreDigits(n: nat)
    ensures AllDigits(Digits(n)) && DigitsValue(Digits(n)) == n
  {
    if n < 10 {
      assert Digits(n)[..0] == [];
    } else {
      DigitsAreDigits(n / 10);
      var s := Digits(n);
      assert s[..|s| - 1] == Digits(n / 10);
    }
  }

  lemma IntReadBack(i: int)
    requires InI64(i)
    ensures var t := IntText(i);
            t != [] && TokenSafe(t) && !IsSpecial(t[0]) && Atom(t) == Ok(Int(i))
  {
    var t := IntText(i);
    DigitsAreDigits(if i < 0 then -i else i);
    if i < 0 { assert t[1..] == Digits(-i); }
    assert t[0] == '-' || IsDigit(t[0]);
    assert IsIntToken(t) && IntValue(t) == i;
    DigitsAreSafe(t);
  }

  lemma DigitsAreSafe(t: string)
    requires IsIntToken(t)
    ensures TokenSafe(t) && !IsSpecial(t[0])
  {
    forall i | 0 <= i < |t| ensures IsTokenChar(t[i])
      && (t[i] == '-' || IsDigit(t[i])) { if t[0] == '-' && i > 0 { assert t[1..][i - 1] == t[i]; } }
  }

  /* ----- strings ----- */

  lemma {:induction false} UnescapeEscaped(s: string)
    ensures Unescape(Escape(s)) == s
  {
    if s != [] {
      UnescapeEscaped(s[1..]);
      EscapedChar(s[0], Escape(s[1..]));
      assert [s[0]] + s[1..] == s;
    }
  }

  lemma NoString(t: string)
    requires TokenSafe(t)
    ensures !HasString(t)
  {}

  lemma KeywordReadBack(s: string, rest: string)
    requires IsKeyword(s) && TokenSafe(s[1..]) && Ends(rest)
    ensures var t := ":" + s[1..]; Tokenize(t + rest) == [t] + Tokenize(rest) && Atom(t) == Ok(Str(s))
  {
    hide Tokenize;
    var t := ":" + s[1..];
    assert t[1..] == s[1..];
    forall i | 0 <= i < |t| ensures IsTokenChar(t[i]) { if i > 0 { assert t[i] == s[1..][i - 1]; } }
    RunToken(t, rest);
    NoString(t);
    assert [KEYWORD] + s[1..] == s;
  }

  lemma PlainReadBack(s: string)
    ensures Atom("\"" + Escape(s) + "\"") == Ok(Str(s))
  {
    hide Tokenize, BodyLength, Escape, Unescape;
    var t := "\"" + Escape(s) + "\"";
    BodyOf(s, []);
    assert t[1..] == Escape(s) + ("\"" + []) && t[1..|t| - 1] == Escape(s);
    assert ClosedAt(t, 0);
    UnescapeEscaped(s);
  }

  /** Every printed string is one token that reads as the string. */
  lemma StrReadBack(s: string, rest: string)
    requires SafeString(s) && Ends(rest)
    ensures var t := PrintStr(s, true);
            Tokenize(t + rest) == [t] + Tokenize(rest) && Atom(t) == Ok(Str(s)) && t != [] && t[0] in {':', '"'}
  {
    hide Tokenize, Atom, Escape;
    if IsKeyword(s) { KeywordReadBack(s, rest); } else { StringToken(s, rest); PlainReadBack(s); }
  }

  lemma SymReadBack(s: string)
    requires SafeSymbol(s)
    ensures Atom(s) == Ok(Sym(s))
  {
    NoString(s);
  }

  /* ----- the tokens of a value ----- */

  function Tokens(v: MalVal): (r: seq<string>)
    requires Printable(v)
    ensures r != []
    decreases v, 1
  {
    match v
    case List(items) => ["("] + TokensOf(items) + [")"]
    case Vector(items) => ["["] + TokensOf(items) + ["]"]
    case Hash(entries) => ["{"] + TokensOfEntries(entries) + ["}"]
    case _ => [Print(v, true)]
  }

  function TokensOf(items: seq<MalVal>): seq<string>
    requires forall i :: 0 <= i < |items| ==> Printable(items[i])
    decreases items, 0
  {
    if items == [] then [] else Tokens(items[0]) + TokensOf(items[1..])
  }

  function TokensOfEntries(entries: seq<Entry>): seq<string>
    requires forall i :: 0 <= i < |entries| ==> Printable(entries[i].value)
    decreases entries, 0
  {
    if entries == [] then []
    else [PrintStr(entries[0].key, true)] + Tokens(entries[0].value) + TokensOfEntries(entries[1..])
  }

  /** The entries as a list of keys and values, as the printer and the reader see them. */
  function Flat(entries: seq<Entry>): (r: seq<MalVal>)
    ensures |r| == 2 * |entries|
    ensures forall i :: 0 <= i < |entries| ==> r[2 * i] == Str(entries[i].key) && r[2 * i + 1] == entries[i].value
  {
    if entries == [] then [] else [Str(entries[0].key), entries[0].value] + Flat(entries[1..])
  }

  predicate AllPrintable(items: seq<MalVal>) { forall i :: 0 <= i < |items| ==> Printable(items[i]) }

  lemma {:induction false} FlatPrintable(entries: seq<Entry>)
    requires forall i :: 0 <= i < |entries| ==> Printable(entries[i].value)
    ensures AllPrintable(Flat(entries))
  {
    hide Printable;
    if entries != [] {
      FlatPrintable(entries[1..]);
      KeyPrints(entries[0].key);
    }
  }

  lemma {:induction false} FlatStep(entries: seq<Entry>)
    requires entries != []
    ensures Flat(entries)[0] == Str(entries[0].key) && Flat(entries)[1..][0] == entries[0].value
    ensures Flat(entries)[1..][1..] == Flat(entries[1..])
  {}

  lemma {:induction false} ItemsStep(items: seq<MalVal>)
    requires AllPrintable(items) && items != []
    ensures TokensOf(items) == Tokens(items[0]) + TokensOf(items[1..])
    ensures PrintItems(items, true)
         == if |items| == 1 then Print(items[0], true) else Print(items[0], true) + " " + PrintItems(items[1..], true)
  {
    hide Print, Tokens, Printable;
  }

  lemma {:induction false} EntriesStep(entries: seq<Entry>)
    requires entries != [] && forall i :: 0 <= i < |entries| ==> Printable(entries[i].value)
    ensures TokensOfEntries(entries)
         == [PrintStr(entries[0].key, true)] + Tokens(entries[0].value) + TokensOfEntries(entries[1..])
    ensures var pair := PrintStr(entries[0].key, true) + " " + Print(entries[0].value, true);
            PrintEntries(entries, true) == if |entries| == 1 then pair
            else pair + " " + PrintEntries(entries[1..], true)
  {
    hide Print, Tokens, Printable, PrintStr;
  }

  lemma {:induction false} EntriesAreFlat(entries: seq<Entry>)
    requires forall i :: 0 <= i < |entries| ==> Printable(entries[i].value)
    ensures AllPrintable(Flat(entries))
    ensures PrintEntries(entries, true) == PrintItems(Flat(entries), true)
    ensures TokensOfEntries(entries) == TokensOf(Flat(entries))
  {
    FlatPrintable(entries);
    if entries == [] {
    } else {
      EntriesAreFlat(entries[1..]);
      OneMoreEntry(entries);
    }
  }

  lemma {:induction false} OneMoreEntry(entries: seq<Entry>)
    requires entries != [] && AllPrintable(Flat(entries))
    requires forall i :: 0 <= i < |entries| ==> Printable(entries[i].value)
    requires AllPrintable(Flat(entries[1..]))
    requires PrintEntries(entries[1..], true) == PrintItems(Flat(entries[1..]), true)
    requires TokensOfEntries(entries[1..]) == TokensOf(Flat(entries[1..]))
    ensures PrintEntries(entries, true) == PrintItems(Flat(entries), true)
    ensures TokensOfEntries(entries) == TokensOf(Flat(entries))
  {
    hide Print, Tokens, Printable, PrintItems, TokensOf, PrintEntries, TokensOfEntries, PrintStr;
    var flat, k, v := Flat(entries), entries[0].key, entries[0].value;
    FlatStep(entries);
    KeyPrints(k);
    EntriesStep(entries);
    ItemsStep(flat);
    assert forall i :: 0 <= i < |flat| - 1 ==> flat[1..][i] == flat[i + 1];
    ItemsStep(flat[1..]);
    if |entries| > 1 { Regroup(PrintStr(k, true), " ", Print(v, true), PrintEntries(entries[1..], true)); }
  }

  lemma KeyPrints(k: string)
    ensures Printable(Str(k)) && Print(Str(k), true) == PrintStr(k, true) && Tokens(Str(k)) == [PrintStr(k, true)]
  {}

  lemma Regroup(a: string, b: string, c: string, d: string)
    ensures a + b + c + b + d == a + b + (c + b + d)
  {}

  /* ----- printing then tokenizing ----- */

  /** The text of the value splits into its tokens, whatever comes after it. */
  ghost predicate Splits(v: MalVal)
    requires Printable(v)
  {
    forall rest: string :: Ends(rest) ==> Tokenize(Print(v, true) + rest) == Tokens(v) + Tokenize(rest)
  }

  lemma {:induction false} ItemsSplit(items: seq<MalVal>, rest: string)
    requires AllPrintable(items) && (forall i :: 0 <= i < |items| ==> Splits(items[i])) && Ends(rest)
    ensures Tokenize(PrintItems(items, true) + rest) == TokensOf(items) + Tokenize(rest)
  {
    hide Print, Tokens, Printable, Tokenize, PrintItems, TokensOf;
    if items == [] {
      NoItems(rest);
    } else {
      ItemsStep(items);
      var first, others := Print(items[0], true), PrintItems(items[1..], true) + rest;
      assert Splits(items[0]);
      if |items| == 1 {
        assert items[1..] == [];
        NoItems(rest);
        assert Tokens(items[0]) + [] == Tokens(items[0]);
      } else {
        assert forall i :: 0 <= i < |items| - 1 ==> items[1..][i] == items[i + 1];
        ItemsSplit(items[1..], rest);
        assert PrintItems(items, true) + rest == first + (" " + others);
        SpaceSkipped(others);
        assert Ends(" " + others);
        assert Tokens(items[0]) + (TokensOf(items[1..]) + Tokenize(rest)) == TokensOf(items) + Tokenize(rest);
      }
    }
  }

  lemma NoItems(rest: string)
    ensures PrintItems([], true) + rest == rest && TokensOf([]) + Tokenize(rest) == Tokenize(rest) && TokensOf([]) == []
  {}

  lemma {:induction false} BracketsSplit(open: char, close: char, items: seq<MalVal>, rest: string)
    requires IsBracket(open) && close in {')', ']', '}'}
    requires AllPrintable(items) && forall i :: 0 <= i < |items| ==> Splits(items[i])
    ensures Tokenize([open] + PrintItems(items, true) + [close] + rest)
         == [[open]] + TokensOf(items) + [[close]] + Tokenize(rest)
  {
    hide Tokenize, PrintItems, TokensOf, Splits;
    var after := [close] + rest;
    ItemsSplit(items, after);
    BracketToken(close, rest);
    BracketToken(open, PrintItems(items, true) + after);
    assert [open] + PrintItems(items, true) + [close] + rest == [open] + (PrintItems(items, true) + after);
    assert [[open]] + (TokensOf(items) + ([[close]] + Tokenize(rest)))
         == [[open]] + TokensOf(items) + [[close]] + Tokenize(rest);
  }

  /* ----- tokens then reading ----- */

  /** The tokens are at this position. */
  predicate Here(tokens: seq<string>, pos: nat, ts: seq<string>) {
    pos + |ts| <= |tokens| && tokens[pos..pos + |ts|] == ts
  }

  /** Reading where the tokens of the value are gives the value, and the position after them; and they do
      not start with a closing bracket. */
  ghost predicate Reads(v: MalVal)
    requires Printable(v)
  {
    && Tokens(v)[0] !in {")", "]", "}"}
    && forall tokens: seq<string>, pos: nat :: Here(tokens, pos, Tokens(v)) ==>
      ReadForm(tokens, pos) == Ok((v, pos + |Tokens(v)|))
  }

  lemma {:induction false} HereSplits(tokens: seq<string>, pos: nat, a: seq<string>, b: seq<string>)
    requires Here(tokens, pos, a + b)
    ensures Here(tokens, pos, a) && Here(tokens, pos + |a|, b)
  {
    assert (a + b)[..|a|] == a && (a + b)[|a|..] == b;
    assert tokens[pos..pos + |a|] == tokens[pos..pos + |a + b|][..|a|];
    assert tokens[pos + |a|..pos + |a + b|] == tokens[pos..pos + |a + b|][|a|..];
  }

  lemma {:induction false} ItemsRead(tokens: seq<string>, pos: nat, end: string, before: seq<MalVal>,
                                     items: seq<MalVal>)
    requires end in {")", "]", "}"} && AllPrintable(items) && forall i :: 0 <= i < |items| ==> Reads(items[i])
    requires Here(tokens, pos, TokensOf(items) + [end])
    ensures ReadSeq(tokens, pos, end, before)
         == match Close(end, before + items)
            case Err(e) => Err(e)
            case Ok(v) => Ok((v, pos + |TokensOf(items)| + 1))
    decreases |items|
  {
    hide Print, Tokens, Printable, PrintItems, TokensOf, ReadForm, Close;
    if items == [] {
      NoItems([]);
      HereFirst(tokens, pos, [end]);
      assert before + [] == before;
    } else {
      ItemsStep(items);
      assert Reads(items[0]);
      assert TokensOf(items) + [end] == Tokens(items[0]) + (TokensOf(items[1..]) + [end]);
      HereSplits(tokens, pos, Tokens(items[0]), TokensOf(items[1..]) + [end]);
      HereFirst(tokens, pos, Tokens(items[0]));
      assert forall i :: 0 <= i < |items| - 1 ==> items[1..][i] == items[i + 1];
      ItemsRead(tokens, pos + |Tokens(items[0])|, end, before + [items[0]], items[1..]);
      assert before + [items[0]] + items[1..] == before + items;
    }
  }

  lemma {:induction false} HereFirst(tokens: seq<string>, pos: nat, ts: seq<string>)
    requires Here(tokens, pos, ts) && ts != []
    ensures pos < |tokens| && tokens[pos] == ts[0]
  {
    assert tokens[pos..pos + |ts|][0] == tokens[pos];
  }

  /** A token that is no bracket and no quote mark is read as an atom. */
  lemma AtomRead(v: MalVal)
    requires Printable(v) && Tokens(v) == [Print(v, true)] && Atom(Print(v, true)) == Ok(v)
    requires Print(v, true) != [] && !IsSpecial(Print(v, true)[0])
    ensures Reads(v)
  {
    hide Print, Tokens, Atom;
    forall tokens: seq<string>, pos: nat | Here(tokens, pos, Tokens(v)) ensures ReadForm(tokens, pos)
      == Ok((v, pos + 1)) {
      HereFirst(tokens, pos, Tokens(v));
    }
  }

  /** The entries of a map with distinct keys are collected as they are. */
  lemma {:induction false} InsertNew(entries: seq<Entry>, k: string, v: MalVal)
    requires forall i :: 0 <= i < |entries| ==> entries[i].key != k
    ensures Insert(entries, k, v) == entries + [Entry(k, v)]
  {
    if entries != [] {
      InsertNew(entries[1..], k, v);
      assert entries == [entries[0]] + entries[1..];
    }
  }

  lemma {:induction false} AssocNothing(before: seq<Entry>)
    ensures Assoc(before, Flat([])) == Ok(Hash(before))
  {}

  lemma {:induction false} AssocStep(before: seq<Entry>, entries: seq<Entry>)
    requires entries != []
    ensures Assoc(before, Flat(entries)) == Assoc(Insert(before, entries[0].key, entries[0].value), Flat(entries[1..]))
  {
    hide Insert;
    assert Flat(entries)[2..] == Flat(entries[1..]);
  }

  lemma {:induction false} AssocFlat(before: seq<Entry>, entries: seq<Entry>)
    requires DistinctKeys(before + entries)
    ensures Assoc(before, Flat(entries)) == Ok(Hash(before + entries))
    decreases |entries|
  {
    hide Flat, Assoc, Insert;
    if entries == [] {
      assert before + [] == before;
      AssocNothing(before);
    } else {
      AssocStep(before, entries);
      forall i | 0 <= i < |before| ensures before[i].key != entries[0].key {
        assert (before + entries)[i] == before[i] && (before + entries)[|before|] == entries[0];
      }
      InsertNew(before, entries[0].key, entries[0].value);
      assert entries[0] == Entry(entries[0].key, entries[0].value);
      assert before + [entries[0]] + entries[1..] == before + entries;
      AssocFlat(before + [entries[0]], entries[1..]);
    }
  }

  lemma {:induction false} MapRead(entries: seq<Entry>)
    requires DistinctKeys(entries)
    ensures Close("}", Flat(entries)) == Ok(Hash(entries))
  {
    hide Flat, Assoc;
    assert |Flat(entries)| % 2 == 0;
    assert [] + entries == entries;
    AssocFlat([], entries);
  }

  /* ----- the round trip ----- */

  ghost predicate Back(v: MalVal) { Printable(v) && Splits(v) && Reads(v) }

  lemma RunBack(v: MalVal, t: string)
    requires Printable(v) && Print(v, true) == t && Tokens(v) == [t] && Atom(t) == Ok(v)
    requires t != [] && TokenSafe(t) && !IsSpecial(t[0])
    ensures Back(v)
  {
    hide Print, Tokens, Atom, Tokenize, ReadForm;
    AtomRead(v);
    forall rest: string | Ends(rest) ensures Tokenize(t + rest) == [t] + Tokenize(rest) { RunToken(t, rest); }
  }

  lemma StrBack(s: string)
    requires SafeString(s)
    ensures Back(Str(s))
  {
    hide Atom, Tokenize, ReadForm, PrintStr, SafeString;
    var v, t := Str(s), PrintStr(s, true);
    KeyPrints(s);
    forall rest: string | Ends(rest) ensures Tokenize(t + rest) == [t] + Tokenize(rest) { StrReadBack(s, rest); }
    StrReadBack(s, []);
    AtomRead(v);
  }

  lemma {:induction false} SeqBack(v: MalVal, open: char, end: char, items: seq<MalVal>)
    requires Printable(v) && IsBracket(open) && end in {')', ']', '}'} && open in {'(', '[', '{'}
    requires (open == '(' && end == ')') || (open == '[' && end == ']') || (open == '{' && end == '}')
    requires AllPrintable(items) && forall i :: 0 <= i < |items| ==> Splits(items[i]) && Reads(items[i])
    requires Print(v, true) == [open] + PrintItems(items, true) + [end]
    requires Tokens(v) == [[open]] + TokensOf(items) + [[end]]
    requires Close([end], items) == Ok(v)
    ensures Back(v)
  {
    hide Print, Tokens, Printable, PrintItems, TokensOf, Tokenize, Splits, Reads, Close;
    forall rest: string | Ends(rest) ensures Tokenize(Print(v, true) + rest) == Tokens(v) + Tokenize(rest) {
      BracketsSplit(open, end, items, rest);
    }
    SplitsIf(v);
    forall tokens: seq<string>, pos: nat | Here(tokens, pos, Tokens(v)) ensures ReadForm(tokens, pos)
      == Ok((v, pos + |Tokens(v)|)) {
      HereFirst(tokens, pos, Tokens(v));
      assert Tokens(v) == [[open]] + (TokensOf(items) + [[end]]);
      HereSplits(tokens, pos, [[open]], TokensOf(items) + [[end]]);
      ItemsRead(tokens, pos + 1, [end], [], items);
      assert [] + items == items;
    }
    ReadsIf(v);
  }

  lemma SplitsIf(v: MalVal)
    requires Printable(v)
    requires forall rest: string :: Ends(rest) ==> Tokenize(Print(v, true) + rest) == Tokens(v) + Tokenize(rest)
    ensures Splits(v)
  {
    hide Print, Tokens, Tokenize;
  }

  lemma ReadsIf(v: MalVal)
    requires Printable(v) && Tokens(v)[0] !in {")", "]", "}"}
    requires forall tokens: seq<string>, pos: nat :: Here(tokens, pos, Tokens(v)) ==>
      ReadForm(tokens, pos) == Ok((v, pos + |Tokens(v)|))
    ensures Reads(v)
  {
    hide Tokens, ReadForm;
  }

  lemma {:induction false} ValueBack(v: MalVal)
    requires Readable(v)
    ensures Back(v)
    decreases v
  {
    hide Back, Tokenize, ReadForm, Atom, PrintItems, PrintEntries, TokensOf, TokensOfEntries;
    ReadableIsPrintable(v);
    match v {
      case Nil => WordBack(v);
      case Bool(_) => WordBack(v);
      case Int(i) => IntReadBack(i); RunBack(v, IntText(i));
      case Str(s) => StrBack(s);
      case Sym(s) => SymReadBack(s); RunBack(v, s);
      case List(items) =>
        forall i | 0 <= i < |items| ensures Back(items[i]) { ValueBack(items[i]); }
        ItemsBack(items);
        ClosesList(items);
        SeqBack(v, '(', ')', items);
      case Vector(items) =>
        forall i | 0 <= i < |items| ensures Back(items[i]) { ValueBack(items[i]); }
        ItemsBack(items);
        ClosesList(items);
        SeqBack(v, '[', ']', items);
      case Hash(entries) =>
        forall i | 0 <= i < |entries| ensures Back(entries[i].value) && Back(Str(entries[i].key)) {
          ValueBack(entries[i].value);
          StrBack(entries[i].key);
        }
        EntriesAreFlat(entries);
        FlatBack(entries);
        ItemsBack(Flat(entries));
        MapRead(entries);
        SeqBack(v, '{', '}', Flat(entries));
    }
  }

  lemma {:induction false} ItemsBack(items: seq<MalVal>)
    requires forall i :: 0 <= i < |items| ==> Back(items[i])
    ensures AllPrintable(items) && forall i :: 0 <= i < |items| ==> Splits(items[i]) && Reads(items[i])
  {
    hide Printable, Splits, Reads;
  }

  lemma {:induction false} ClosesList(items: seq<MalVal>)
    ensures Close(")", items) == Ok(List(items)) && Close("]", items) == Ok(Vector(items))
  {}

  lemma {:induction false} FlatBack(entries: seq<Entry>)
    requires forall i :: 0 <= i < |entries| ==> Back(entries[i].value) && Back(Str(entries[i].key))
    ensures forall k :: 0 <= k < |Flat(entries)| ==> Back(Flat(entries)[k])
  {
    hide Back;
    if entries != [] { FlatBack(entries[1..]); }
  }

  lemma WordBack(v: MalVal)
    requires v.Nil? || v.Bool?
    ensures Back(v)
  {
    hide Back, Tokenize, ReadForm;
    RunBack(v, Print(v, true));
  }

  /** Reading the readable text of a value made of nil, booleans, 64-bit integers, strings, keywords and
      symbols that are one token, lists, vectors and maps gives that value. */
  lemma ReadAfterPrint(v: MalVal)
    requires Readable(v)
    ensures Printable(v) && ReadStr(Print(v, true)) == Ok(v)
  {
    hide Print, Tokens, Printable, Readable, Tokenize, ReadForm;
    ReadableIsPrintable(v);
    ValueBack(v);
    var s := Print(v, true);
    assert s + [] == s;
    assert Tokenize(s + []) == Tokens(v) + Tokenize([]);
    NoTokens();
    assert Tokens(v) + [] == Tokens(v);
    assert Here(Tokens(v), 0, Tokens(v));
  }

  lemma NoTokens()
    ensures Tokenize([]) == []
  {}
}
