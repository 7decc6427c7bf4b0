/** Texts with reader marks and comments: what they are read as. */
module LispSyntax {
  import opened Wrappers
  import opened LispValues
  import opened LispText
  import opened LispRoundTrip

  datatype Mark = Quote | Quasiquote | Unquote | SpliceUnquote | Deref

  /** A text as it is written: the text of a value; a form after a mark, after a form of meta data, after a
      line of comment, or after white space or a comma; or forms between round or square brackets. */
  datatype Syntax =
    | Leaf(value: MalVal)
    | Marked(mark: Mark, form: Syntax)
    | WithMeta(meta: Syntax, of: Syntax)
    | Commented(line: string, after: Syntax)
    | Spaced(blank: char, before: Syntax)
    | Group(round: bool, forms: seq<Syntax>)

  /** Its leaves are readable values, and its comments are single lines. */
  predicate WellFormed(s: Syntax) {
    match s
    case Leaf(v) => Readable(v)
    case Marked(_, f) => WellFormed(f)
    case WithMeta(m, f) => WellFormed(m) && WellFormed(f)
    case Commented(line, f) => '\n' !in line && WellFormed(f)
    case Spaced(c, f) => c in {' ', ',', '\t', '\n', '\r'} && WellFormed(f)
    case Group(_, forms) => forall i :: 0 <= i < |forms| ==> WellFormed(forms[i])
  }

  function MarkText(m: Mark): string {
    match m
    case Quote => "'"
    case Quasiquote => "`"
    case Unquote => "~"
    case SpliceUnquote => "~@"
    case Deref => "@"
  }

  function Text(s: Syntax): string
    requires WellFormed(s)
    decreases s, 1
  {
    match s
    case Leaf(v) => ReadableIsPrintable(v); Print(v, true)
    case Marked(m, f) => MarkText(m) + Text(f)
    case WithMeta(m, f) => "^" + Text(m) + " " + Text(f)
    case Commented(line, f) => ";" + line + "\n" + Text(f)
    case Spaced(c, f) => [c] + Text(f)
    case Group(round, forms) => (if round then "(" else "[") + Texts(forms) + (if round then ")" else "]")
  }

  /** Joined with spaces. */
  function Texts(forms: seq<Syntax>): string
    requires forall i :: 0 <= i < |forms| ==> WellFormed(forms[i])
    decreases forms, 0
  {
    if forms == [] then ""
    else if |forms| == 1 then Text(forms[0])
    else Text(forms[0]) + " " + Texts(forms[1..])
  }

  /** What the text is meant to say. */
  function Meaning(s: Syntax): MalVal
    decreases s, 1
  {
    match s
    case Leaf(v) => v
    case Marked(Quote, f) => List([Sym("quote"), Meaning(f)])
    case Marked(Quasiquote, f) => List([Sym("quasiquote"), Meaning(f)])
    case Marked(Unquote, f) => List([Sym("unquote"), Meaning(f)])
    case Marked(SpliceUnquote, f) => List([Sym("splice-unquote"), Meaning(f)])
    case Marked(Deref, f) => List([Sym("deref"), Meaning(f)])
    case WithMeta(m, f) => List([Sym("with-meta"), Meaning(f), Meaning(m)])
    case Commented(_, f) => Meaning(f)
    case Spaced(_, f) => Meaning(f)
    case Group(round, forms) => if round then List(Meanings(forms)) else Vector(Meanings(forms))
  }

  function Meanings(forms: seq<Syntax>): (r: seq<MalVal>)
    ensures |r| == |forms| && forall i :: 0 <= i < |r| ==> r[i] == Meaning(forms[i])
    decreases forms, 0
  {
    if forms == [] then [] else [Meaning(forms[0])] + Meanings(forms[1..])
  }

  /** No mark for unquoting stands directly before a mark for dereferencing. */
  predicate NoClash(s: Syntax) {
    match s
    case Leaf(_) => true
    case Marked(m, f) => !(m == Unquote && f.Marked? && f.mark == Deref) && NoClash(f)
    case WithMeta(m, f) => NoClash(m) && NoClash(f)
    case Commented(_, f) => NoClash(f)
    case Spaced(_, f) => NoClash(f)
    case Group(_, forms) => forall i :: 0 <= i < |forms| ==> NoClash(forms[i])
  }

  /* ----- tokens ----- */

  function TokensIn(s: Syntax): (r: seq<string>)
    requires WellFormed(s)
    ensures r != []
    decreases s, 1
  {
    match s
    case Leaf(v) => ReadableIsPrintable(v); Tokens(v)
    case Marked(m, f) => [MarkText(m)] + TokensIn(f)
    case WithMeta(m, f) => ["^"] + TokensIn(m) + TokensIn(f)
    case Commented(_, f) => TokensIn(f)
    case Spaced(_, f) => TokensIn(f)
    case Group(round, forms) => [if round then "(" else "["] + TokensInAll(forms) + [if round then ")" else "]"]
  }

  function TokensInAll(forms: seq<Syntax>): seq<string>
    requires forall i :: 0 <= i < |forms| ==> WellFormed(forms[i])
    decreases forms, 0
  {
    if forms == [] then [] else TokensIn(forms[0]) + TokensInAll(forms[1..])
  }

  /** The text splits into its tokens, whatever comes after it. */
  ghost predicate TextSplits(s: Syntax)
    requires WellFormed(s)
  {
    forall rest: string :: Ends(rest) ==> Tokenize(Text(s) + rest) == TokensIn(s) + Tokenize(rest)
  }

  lemma MarkToken(m: Mark, rest: string)
    requires m == Unquote ==> rest == [] || rest[0] != '@'
    ensures Tokenize(MarkText(m) + rest) == [MarkText(m)] + Tokenize(rest)
  {
    hide Tokenize;
    TokenFirst(MarkText(m), rest);
  }

  lemma CaretToken(rest: string)
    ensures Tokenize("^" + rest) == ["^"] + Tokenize(rest)
  {
    hide Tokenize;
    TokenFirst("^", rest);
  }

  lemma TokenFirst(t: string, rest: string)
    requires t != [] && !IsBlank(t[0]) && t[0] != ';' && TokenLength(t + rest) == |t|
    ensures Tokenize(t + rest) == [t] + Tokenize(rest)
  {
    var s := t + rest;
    assert SkipBlanks(s) == s && s[..|t|] == t && s[|t|..] == rest;
  }

  lemma {:induction false} LineOf(line: string, rest: string)
    requires '\n' !in line
    ensures LineLength(line + "\n" + rest) == |line|
  {
    if line == [] {
      assert line + "\n" + rest == "\n" + rest;
    } else {
      assert (line + "\n" + rest)[1..] == line[1..] + "\n" + rest;
      LineOf(line[1..], rest);
    }
  }

  /** A comment is no token, and ends with its line. */
  lemma CommentSkipped(line: string, rest: string)
    requires '\n' !in line
    ensures Tokenize(";" + line + "\n" + rest) == Tokenize(rest)
  {
    var s := ";" + line + "\n" + rest;
    LineOf(line, rest);
    assert s[1..] == line + "\n" + rest;
    assert SkipBlanks(s) == s && TokenLength(s) == 1 + |line|;
    assert s[1 + |line|..] == "\n" + rest;
    assert ("\n" + rest)[1..] == rest;
    assert Tokenize("\n" + rest) == Tokenize(rest);
    assert [] + Tokenize(rest) == Tokenize(rest);
  }

  /** No text is empty, and only the mark for dereferencing makes it start with its character. */
  lemma TextStarts(s: Syntax)
    requires WellFormed(s)
    ensures Text(s) != [] && (Text(s)[0] == '@' ==> s.Marked? && s.mark == Deref)
  {
    if s.Leaf? {
      ReadableIsPrintable(s.value);
      LeafStarts(s.value);
    }
  }

  lemma LeafStarts(v: MalVal)
    requires Readable(v) && Printable(v)
    ensures Print(v, true) != [] && Print(v, true)[0] != '@'
  {
    hide PrintItems, PrintEntries, Escape, Digits;
    match v {
      case Int(i) => IntReadBack(i);
      case _ =>
    }
  }

  lemma {:induction false} TextsSplit(forms: seq<Syntax>, rest: string)
    requires forall i :: 0 <= i < |forms| ==> WellFormed(forms[i]) && TextSplits(forms[i])
    requires Ends(rest)
    ensures Tokenize(Texts(forms) + rest) == TokensInAll(forms) + Tokenize(rest)
  {
    hide Text, TokensIn, Tokenize, WellFormed;
    if forms == [] {
      assert Texts(forms) + rest == rest;
    } else {
      assert TextSplits(forms[0]);
      assert forall i :: 0 <= i < |forms| - 1 ==> forms[1..][i] == forms[i + 1];
      if |forms| == 1 {
        assert TokensInAll(forms) == TokensIn(forms[0]) + [];
        assert TokensIn(forms[0]) + [] == TokensIn(forms[0]);
      } else {
        var more := Texts(forms[1..]) + rest;
        TextsSplit(forms[1..], rest);
        assert Texts(forms) + rest == Text(forms[0]) + (" " + more);
        SpaceSkipped(more);
        assert Ends(" " + more);
        assert TokensIn(forms[0]) + (TokensInAll(forms[1..]) + Tokenize(rest)) == TokensInAll(forms) + Tokenize(rest);
      }
    }
  }

  lemma GroupText(s: Syntax)
    requires s.Group? && WellFormed(s)
    ensures forall i :: 0 <= i < |s.forms| ==> WellFormed(s.forms[i])
    ensures Text(s) == [if s.round then '(' else '['] + Texts(s.forms) + [if s.round then ')' else ']']
    ensures TokensIn(s)
         == [[if s.round then '(' else '[']] + TokensInAll(s.forms) + [[if s.round then ')' else ']']]
  {
    hide Texts, TokensInAll;
  }

  lemma GroupSplits(s: Syntax, rest: string)
    requires s.Group? && WellFormed(s) && Ends(rest) && forall i :: 0 <= i < |s.forms| ==> TextSplits(s.forms[i])
    ensures Tokenize(Text(s) + rest) == TokensIn(s) + Tokenize(rest)
  {
    hide Tokenize, Texts, TokensInAll, TextSplits, Text, TokensIn, WellFormed;
    GroupText(s);
    var open, close := if s.round then '(' else '[', if s.round then ')' else ']';
    var after := [close] + rest;
    TextsSplit(s.forms, after);
    BracketToken(close, rest);
    BracketToken(open, Texts(s.forms) + after);
    assert Text(s) + rest == [open] + (Texts(s.forms) + after);
    assert [[open]] + (TokensInAll(s.forms) + ([[close]] + Tokenize(rest))) == TokensIn(s) + Tokenize(rest);
  }

  lemma LeafSplits(v: MalVal, rest: string)
    requires Readable(v) && Printable(v) && Ends(rest)
    ensures Tokenize(Print(v, true) + rest) == Tokens(v) + Tokenize(rest)
  {
    hide Print, Tokens, Tokenize, Readable, Printable, Reads;
    ValueBack(v);
  }

  lemma MarkedSplits(s: Syntax, rest: string)
    requires s.Marked? && WellFormed(s) && TextSplits(s.form) && Ends(rest)
    requires s.mark == Unquote ==> Text(s.form) != [] && Text(s.form)[0] != '@'
    ensures Tokenize(Text(s) + rest) == TokensIn(s) + Tokenize(rest)
  {
    hide Tokenize, MarkText, WellFormed;
    MarkedText(s);
    var more := Text(s.form) + rest;
    MarkToken(s.mark, more);
    assert Text(s) + rest == MarkText(s.mark) + more;
    assert [MarkText(s.mark)] + (TokensIn(s.form) + Tokenize(rest)) == TokensIn(s) + Tokenize(rest);
  }

  lemma MarkedText(s: Syntax)
    requires s.Marked? && WellFormed(s)
    ensures WellFormed(s.form) && Text(s) == MarkText(s.mark) + Text(s.form)
    ensures TokensIn(s) == [MarkText(s.mark)] + TokensIn(s.form)
  {
    hide Texts, TokensInAll, MarkText;
  }

  lemma MetaText(s: Syntax)
    requires s.WithMeta? && WellFormed(s)
    ensures WellFormed(s.meta) && WellFormed(s.of) && Text(s) == "^" + Text(s.meta) + " " + Text(s.of)
    ensures TokensIn(s) == ["^"] + TokensIn(s.meta) + TokensIn(s.of)
  {
    hide Texts, TokensInAll;
  }

  lemma MetaSplits(s: Syntax, rest: string)
    requires s.WithMeta? && WellFormed(s) && TextSplits(s.meta) && TextSplits(s.of) && Ends(rest)
    ensures Tokenize(Text(s) + rest) == TokensIn(s) + Tokenize(rest)
  {
    hide Tokenize, WellFormed, Text, TokensIn;
    MetaText(s);
    var more := Text(s.of) + rest;
    SpaceSkipped(more);
    CaretToken(Text(s.meta) + (" " + more));
    assert Ends(" " + more);
    assert Text(s) + rest == "^" + (Text(s.meta) + (" " + more));
    assert ["^"] + (TokensIn(s.meta) + (TokensIn(s.of) + Tokenize(rest))) == TokensIn(s) + Tokenize(rest);
  }

  lemma CommentSplits(s: Syntax, rest: string)
    requires s.Commented? && WellFormed(s) && TextSplits(s.after) && Ends(rest)
    ensures Tokenize(Text(s) + rest) == TokensIn(s) + Tokenize(rest)
  {
    hide Tokenize;
    CommentSkipped(s.line, Text(s.after) + rest);
    assert Text(s) + rest == ";" + s.line + "\n" + (Text(s.after) + rest);
  }

  lemma SpaceSplits(s: Syntax, rest: string)
    requires s.Spaced? && WellFormed(s) && TextSplits(s.before) && Ends(rest)
    ensures Tokenize(Text(s) + rest) == TokensIn(s) + Tokenize(rest)
  {
    hide Tokenize;
    BlankSkipped(s.blank, Text(s.before) + rest);
    assert Text(s) + rest == [s.blank] + (Text(s.before) + rest);
  }

  lemma BlankSkipped(c: char, rest: string)
    requires c in {' ', ',', '\t', '\n', '\r'}
    ensures Tokenize([c] + rest) == Tokenize(rest)
  {
    assert ([c] + rest)[1..] == rest;
  }

  lemma {:induction false} EverySplits(s: Syntax)
    requires WellFormed(s) && NoClash(s)
    ensures TextSplits(s)
    decreases s
  {
    hide Text, TokensIn, Tokenize;
    match s {
      case Leaf(_) =>
      case Marked(_, f) =>
        EverySplits(f);
        TextStarts(f);
      case WithMeta(m, f) =>
        EverySplits(m);
        EverySplits(f);
      case Commented(_, f) => EverySplits(f);
      case Spaced(_, f) => EverySplits(f);
      case Group(_, forms) => forall i | 0 <= i < |forms| ensures TextSplits(forms[i]) { EverySplits(forms[i]); }
    }
    forall rest: string | Ends(rest) ensures Tokenize(Text(s) + rest) == TokensIn(s) + Tokenize(rest) {
      match s {
        case Leaf(v) => LeafText(v); LeafSplits(v, rest);
        case Marked(_, _) => MarkedSplits(s, rest);
        case WithMeta(_, _) => MetaSplits(s, rest);
        case Commented(_, _) => CommentSplits(s, rest);
        case Spaced(_, _) => SpaceSplits(s, rest);
        case Group(_, _) => GroupSplits(s, rest);
      }
    }
  }

  lemma LeafText(v: MalVal)
    requires Readable(v)
    ensures Printable(v) && Text(Leaf(v)) == Print(v, true) && TokensIn(Leaf(v)) == Tokens(v)
  {
    hide Print, Tokens, Readable, Printable;
    ReadableIsPrintable(v);
    assert WellFormed(Leaf(v));
  }

  /* ----- reading ----- */

  /** Reading where the tokens of the text are gives its meaning, and the position after them. */
  ghost predicate TextReads(s: Syntax)
    requires WellFormed(s)
  {
    && TokensIn(s)[0] !in {")", "]", "}"}
    && forall tokens: seq<string>, pos: nat :: Here(tokens, pos, TokensIn(s)) ==>
         ReadForm(tokens, pos) == Ok((Meaning(s), pos + |TokensIn(s)|))
  }

  lemma SeqStep(tokens: seq<string>, pos: nat, end: string, items: seq<MalVal>, v: MalVal, next: nat)
    requires end in {")", "]", "}"} && pos < next <= |tokens| && tokens[pos] != end
    requires ReadForm(tokens, pos) == Ok((v, next))
    ensures ReadSeq(tokens, pos, end, items) == ReadSeq(tokens, next, end, items + [v])
  {
    hide ReadForm;
  }

  lemma SeqEnds(tokens: seq<string>, pos: nat, end: string, items: seq<MalVal>)
    requires end in {")", "]", "}"} && pos < |tokens| && tokens[pos] == end
    ensures ReadSeq(tokens, pos, end, items) == Closed(end, items, pos + 1)
  {
    hide Close;
  }

  /** The result of a sequence whose bracket is closed before this position. */
  function Closed(end: string, items: seq<MalVal>, next: nat): Read
    requires end in {")", "]", "}"}
  {
    match Close(end, items)
    case Err(e) => Err(e)
    case Ok(v) => Ok((v, next))
  }

  lemma {:induction false} FormsStep(forms: seq<Syntax>)
    requires forms != [] && forall i :: 0 <= i < |forms| ==> WellFormed(forms[i])
    ensures TokensInAll(forms) == TokensIn(forms[0]) + TokensInAll(forms[1..])
    ensures Meanings(forms) == [Meaning(forms[0])] + Meanings(forms[1..])
  {
    hide TokensIn, Meaning, WellFormed;
  }

  lemma NoForms()
    ensures TokensInAll([]) == [] && Meanings([]) == []
  {}

  lemma {:induction false} FormsRead(tokens: seq<string>, pos: nat, end: string, before: seq<MalVal>,
                                     forms: seq<Syntax>)
    requires end in {")", "]", "}"} && forall i :: 0 <= i < |forms| ==> WellFormed(forms[i]) && TextReads(forms[i])
    requires Here(tokens, pos, TokensInAll(forms) + [end])
    ensures ReadSeq(tokens, pos, end, before)
         == Closed(end, before + Meanings(forms), pos + |TokensInAll(forms)| + 1)
    decreases |forms|
  {
    hide TokensIn, TokensInAll, ReadForm, ReadSeq, WellFormed, Meaning, Meanings, Closed;
    NoForms();
    if forms == [] {
      HereFirst(tokens, pos, [end]);
      SeqEnds(tokens, pos, end, before);
      assert before + [] == before;
    } else {
      var first, v := TokensIn(forms[0]), Meaning(forms[0]);
      var more := TokensInAll(forms[1..]) + [end];
      FormsStep(forms);
      assert TextReads(forms[0]);
      assert TokensInAll(forms) + [end] == first + more;
      HereSplits(tokens, pos, first, more);
      HereFirst(tokens, pos, first);
      SeqStep(tokens, pos, end, before, v, pos + |first|);
      assert forall i :: 0 <= i < |forms| - 1 ==> forms[1..][i] == forms[i + 1];
      FormsRead(tokens, pos + |first|, end, before + [v], forms[1..]);
      assert before + [v] + Meanings(forms[1..]) == before + Meanings(forms);
    }
  }

  lemma {:induction false} LeafReads(v: MalVal, tokens: seq<string>, pos: nat)
    requires Readable(v) && Printable(v) && Here(tokens, pos, Tokens(v))
    ensures ReadForm(tokens, pos) == Ok((v, pos + |Tokens(v)|)) && Tokens(v)[0] !in {")", "]", "}"}
  {
    hide Print, Tokens, ReadForm, Readable, Printable, Splits;
    ValueBack(v);
  }

  lemma LeafOpens(v: MalVal)
    requires Readable(v) && Printable(v)
    ensures Tokens(v)[0] !in {")", "]", "}"}
  {
    hide Print, Tokens, ReadForm, Readable, Printable, Splits;
    ValueBack(v);
  }

  lemma {:induction false} MarkedReads(s: Syntax, tokens: seq<string>, pos: nat)
    requires s.Marked? && WellFormed(s) && TextReads(s.form) && Here(tokens, pos, TokensIn(s))
    ensures ReadForm(tokens, pos) == Ok((Meaning(s), pos + |TokensIn(s)|))
  {
    hide TokensIn, Text, ReadSeq;
    MarkedText(s);
    var mark := [MarkText(s.mark)];
    HereSplits(tokens, pos, mark, TokensIn(s.form));
    HereFirst(tokens, pos, mark);
    assert ReadForm(tokens, pos + 1) == Ok((Meaning(s.form), pos + 1 + |TokensIn(s.form)|));
  }

  lemma MetaStep(tokens: seq<string>, pos: nat, meta: MalVal, p1: nat, v: MalVal, p2: nat)
    requires pos < |tokens| && tokens[pos] == "^"
    requires ReadForm(tokens, pos + 1) == Ok((meta, p1)) && ReadForm(tokens, p1) == Ok((v, p2))
    ensures ReadForm(tokens, pos) == Ok((List([Sym("with-meta"), v, meta]), p2))
  {
    hide ReadSeq, Atom;
  }

  lemma {:induction false} MetaReads(s: Syntax, tokens: seq<string>, pos: nat)
    requires s.WithMeta? && WellFormed(s) && TextReads(s.meta) && TextReads(s.of) && Here(tokens, pos, TokensIn(s))
    ensures ReadForm(tokens, pos) == Ok((Meaning(s), pos + |TokensIn(s)|))
  {
    hide TokensIn, Text, ReadForm, WellFormed;
    MetaText(s);
    var a, b := TokensIn(s.meta), TokensIn(s.of);
    assert TokensIn(s) == ["^"] + (a + b);
    HereSplits(tokens, pos, ["^"], a + b);
    HereFirst(tokens, pos, ["^"]);
    HereSplits(tokens, pos + 1, a, b);
    assert ReadForm(tokens, pos + 1) == Ok((Meaning(s.meta), pos + 1 + |a|));
    assert ReadForm(tokens, pos + 1 + |a|) == Ok((Meaning(s.of), pos + 1 + |a| + |b|));
    MetaStep(tokens, pos, Meaning(s.meta), pos + 1 + |a|, Meaning(s.of), pos + 1 + |a| + |b|);
  }

  lemma {:induction false} GroupReads(s: Syntax, tokens: seq<string>, pos: nat)
    requires s.Group? && WellFormed(s) && (forall i :: 0 <= i < |s.forms| ==> TextReads(s.forms[i]))
    requires Here(tokens, pos, TokensIn(s))
    ensures ReadForm(tokens, pos) == Ok((Meaning(s), pos + |TokensIn(s)|))
  {
    hide ReadSeq, TextReads, TokensInAll, Meanings;
    var open, end := if s.round then "(" else "[", if s.round then ")" else "]";
    assert TokensIn(s) == [open] + (TokensInAll(s.forms) + [end]);
    HereSplits(tokens, pos, [open], TokensInAll(s.forms) + [end]);
    HereFirst(tokens, pos, [open]);
    FormsRead(tokens, pos + 1, end, [], s.forms);
    assert [] + Meanings(s.forms) == Meanings(s.forms);
  }

  lemma {:induction false} Opens(s: Syntax)
    requires WellFormed(s)
    ensures TokensIn(s)[0] !in {")", "]", "}"}
    decreases s
  {
    hide TokensInAll, Tokens;
    match s {
      case Leaf(v) => ReadableIsPrintable(v); LeafOpens(v);
      case Commented(_, f) => Opens(f);
      case Spaced(_, f) => Opens(f);
      case Marked(m, _) => assert TokensIn(s)[0] == MarkText(m) && MarkText(m) !in {")", "]", "}"};
      case _ =>
    }
  }

  lemma {:induction false} EveryReads(s: Syntax)
    requires WellFormed(s)
    ensures TextReads(s)
    decreases s
  {
    hide Text, TokensIn, ReadForm, Meaning;
    Opens(s);
    match s {
      case Leaf(_) =>
      case Marked(_, f) => EveryReads(f);
      case WithMeta(m, f) =>
        EveryReads(m);
        EveryReads(f);
      case Commented(_, f) => EveryReads(f);
      case Spaced(_, f) => EveryReads(f);
      case Group(_, forms) => forall i | 0 <= i < |forms| ensures TextReads(forms[i]) { EveryReads(forms[i]); }
    }
    forall tokens: seq<string>, pos: nat | Here(tokens, pos, TokensIn(s))
      ensures ReadForm(tokens, pos) == Ok((Meaning(s), pos + |TokensIn(s)|))
    {
      match s {
        case Leaf(v) => LeafText(v); LeafMeaning(v); LeafReads(v, tokens, pos);
        case Marked(_, _) => MarkedReads(s, tokens, pos);
        case WithMeta(_, _) => MetaReads(s, tokens, pos);
        case Commented(_, f) => CommentReads(s); assert TextReads(f);
        case Spaced(_, f) => SpaceReads(s); assert TextReads(f);
        case Group(_, _) => GroupReads(s, tokens, pos);
      }
    }
  }

  lemma LeafMeaning(v: MalVal)
    ensures Meaning(Leaf(v)) == v
  {}

  lemma SpaceReads(s: Syntax)
    requires s.Spaced? && WellFormed(s)
    ensures TokensIn(s) == TokensIn(s.before) && Meaning(s) == Meaning(s.before)
  {}

  lemma CommentReads(s: Syntax)
    requires s.Commented? && WellFormed(s)
    ensures TokensIn(s) == TokensIn(s.after) && Meaning(s) == Meaning(s.after)
  {}

  /** Without a clash of marks the text is read as what it is meant to say, and what follows is ignored. */
  lemma ReadAsMeant(s: Syntax, rest: string)
    requires WellFormed(s) && NoClash(s) && Ends(rest)
    ensures ReadStr(Text(s) + rest) == Ok(Meaning(s))
  {
    hide Text, TokensIn, WellFormed, NoClash, Tokenize, ReadForm, Meaning;
    EverySplits(s);
    EveryReads(s);
    var tokens := TokensIn(s) + Tokenize(rest);
    assert tokens[0..|TokensIn(s)|] == TokensIn(s);
    assert Here(tokens, 0, TokensIn(s));
  }

  /* ----- the clash ----- */

  /** The same text, with the two marks taken for the one they make together. */
  function Merged(s: Syntax): (r: Syntax)
    decreases s, 1
  {
    match s
    case Leaf(_) => s
    case Marked(m, f) =>
      if m == Unquote && f.Marked? && f.mark == Deref then Marked(SpliceUnquote, Merged(f.form))
      else Marked(m, Merged(f))
    case WithMeta(m, f) => WithMeta(Merged(m), Merged(f))
    case Commented(line, f) => Commented(line, Merged(f))
    case Spaced(c, f) => Spaced(c, Merged(f))
    case Group(round, forms) => Group(round, AllMerged(forms))
  }

  function AllMerged(forms: seq<Syntax>): (r: seq<Syntax>)
    ensures |r| == |forms| && forall i :: 0 <= i < |r| ==> r[i] == Merged(forms[i])
    decreases forms, 0
  {
    if forms == [] then [] else [Merged(forms[0])] + AllMerged(forms[1..])
  }

  lemma MergedFirst(s: Syntax)
    ensures Merged(s).Marked? && Merged(s).mark == Deref <==> s.Marked? && s.mark == Deref
  {
    hide AllMerged;
  }

  lemma {:induction false} MergedIsSameText(s: Syntax)
    requires WellFormed(s)
    ensures WellFormed(Merged(s)) && NoClash(Merged(s)) && Text(Merged(s)) == Text(s)
    decreases s
  {
    match s {
      case Leaf(_) =>
      case Marked(m, f) =>
        MergedIsSameText(f);
        MergedFirst(f);
        if m == Unquote && f.Marked? && f.mark == Deref {
          MergedIsSameText(f.form);
          assert Text(s) == "~" + ("@" + Text(f.form));
          assert Text(s) == "~@" + Text(f.form);
        }
      case WithMeta(m, f) => MergedIsSameText(m); MergedIsSameText(f);
      case Commented(_, f) => MergedIsSameText(f);
      case Spaced(_, f) => MergedIsSameText(f);
      case Group(_, forms) =>
        forall i | 0 <= i < |forms|
          ensures WellFormed(Merged(forms[i])) && NoClash(Merged(forms[i])) && Text(Merged(forms[i])) == Text(forms[i])
        {
          MergedIsSameText(forms[i]);
        }
        SameTexts(forms, AllMerged(forms));
    }
  }

  lemma {:induction false} SameTexts(a: seq<Syntax>, b: seq<Syntax>)
    requires |a| == |b| && forall i :: 0 <= i < |a| ==> WellFormed(a[i]) && WellFormed(b[i]) && Text(a[i]) == Text(b[i])
    ensures Texts(a) == Texts(b)
  {
    hide WellFormed, Text;
    if a != [] {
      assert forall i :: 0 <= i < |a| - 1 ==> a[1..][i] == a[i + 1] && b[1..][i] == b[i + 1];
      SameTexts(a[1..], b[1..]);
    }
  }

  lemma {:induction false} MergedMeansSame(s: Syntax)
    ensures Meaning(Merged(s)) == Meaning(s) <==> NoClash(s)
    decreases s
  {
    match s {
      case Leaf(_) =>
      case Marked(m, f) =>
        MergedMeansSame(f);
        if m == Unquote && f.Marked? && f.mark == Deref {
          assert Meaning(Merged(s)).items[0] == Sym("splice-unquote") && Meaning(s).items[0] == Sym("unquote");
          assert "splice-unquote" != "unquote";
        } else {
          assert Meaning(Merged(s)).items[1] == Meaning(Merged(f)) && Meaning(s).items[1] == Meaning(f);
        }
      case WithMeta(m, f) =>
        MergedMeansSame(m);
        MergedMeansSame(f);
        assert Meaning(Merged(s)).items[1] == Meaning(Merged(f)) && Meaning(Merged(s)).items[2] == Meaning(Merged(m));
        assert Meaning(s).items[1] == Meaning(f) && Meaning(s).items[2] == Meaning(m);
      case Commented(_, f) => MergedMeansSame(f);
      case Spaced(_, f) => MergedMeansSame(f);
      case Group(_, forms) =>
        forall i | 0 <= i < |forms| ensures Meaning(Merged(forms[i])) == Meaning(forms[i]) <==> NoClash(forms[i]) {
          MergedMeansSame(forms[i]);
        }
        var a, b := Meanings(AllMerged(forms)), Meanings(forms);
        assert Meaning(Merged(s)).items == a && Meaning(s).items == b;
        if a == b {
          forall i | 0 <= i < |forms| ensures NoClash(forms[i]) { assert a[i] == b[i]; }
        }
    }
  }

  /** A text is read as what it is meant to say exactly when it unquotes no dereferencing without something in
      between: those two marks together are the mark for splicing. */
  lemma ReadAsMeantIff(s: Syntax, rest: string)
    requires WellFormed(s) && Ends(rest)
    ensures ReadStr(Text(s) + rest) == Ok(Meaning(s)) <==> NoClash(s)
  {
    hide Text, WellFormed, NoClash, ReadStr, Meaning, Merged;
    MergedIsSameText(s);
    ReadAsMeant(Merged(s), rest);
    MergedMeansSame(s);
  }

  /* ----- maps ----- */

  /** Forms between braces are read as the map of what they mean, if they are one. */
  lemma {:induction false} BracesRead(forms: seq<Syntax>)
    requires forall i :: 0 <= i < |forms| ==> WellFormed(forms[i]) && NoClash(forms[i])
    ensures ReadStr("{" + Texts(forms) + "}") == HashMap(Meanings(forms))
  {
    hide Tokenize, Texts, TokensInAll, WellFormed, NoClash, Meanings, ReadSeq, HashMap;
    forall i | 0 <= i < |forms| ensures TextSplits(forms[i]) && TextReads(forms[i]) {
      EverySplits(forms[i]);
      EveryReads(forms[i]);
    }
    NoTokens();
    BracketToken('}', []);
    TextsSplit(forms, "}");
    BracketToken('{', Texts(forms) + "}");
    assert ['{'] + (Texts(forms) + "}") == "{" + Texts(forms) + "}" && ['}'] + [] == "}";
    var tokens := [['{']] + (TokensInAll(forms) + [['}']]);
    assert [['}']] + [] == [['}']];
    assert tokens[1..] == TokensInAll(forms) + [['}']];
    assert tokens[1..1 + |TokensInAll(forms) + [['}']]|] == tokens[1..];
    FormsRead(tokens, 1, "}", [], forms);
    assert [] + Meanings(forms) == Meanings(forms);
    assert tokens[0] == "{";
  }

  /** Keys and values make a map exactly when they come in pairs and all keys are strings. */
  lemma {:induction false} HashMapIff(kvs: seq<MalVal>)
    ensures |kvs| % 2 != 0 ==> HashMap(kvs) == Err(ErrString("odd number of elements"))
    ensures |kvs| % 2 == 0 && (exists i :: 0 <= i < |kvs| && i % 2 == 0 && !kvs[i].Str?) ==>
      HashMap(kvs) == Err(ErrString("key is not string"))
    ensures |kvs| % 2 == 0 && (forall i :: 0 <= i < |kvs| && i % 2 == 0 ==> kvs[i].Str?) ==> HashMap(kvs).Ok?
  {
    hide Assoc;
    if |kvs| % 2 == 0 { AssocIff([], kvs); }
  }

  lemma {:induction false} AssocIff(before: seq<Entry>, kvs: seq<MalVal>)
    requires |kvs| % 2 == 0
    ensures (exists i :: 0 <= i < |kvs| && i % 2 == 0 && !kvs[i].Str?) ==>
      Assoc(before, kvs) == Err(ErrString("key is not string"))
    ensures (forall i :: 0 <= i < |kvs| && i % 2 == 0 ==> kvs[i].Str?) ==> Assoc(before, kvs).Ok?
    decreases |kvs|
  {
    if kvs != [] && kvs[0].Str? {
      var rest := kvs[2..];
      AssocIff(Insert(before, kvs[0].text, kvs[1]), rest);
      if i :| 0 <= i < |kvs| && i % 2 == 0 && !kvs[i].Str? { assert rest[i - 2] == kvs[i] && (i - 2) % 2 == 0; }
      if forall i :: 0 <= i < |kvs| && i % 2 == 0 ==> kvs[i].Str? {
        forall i | 0 <= i < |rest| && i % 2 == 0 ensures rest[i].Str? {
          assert rest[i] == kvs[i + 2] && (i + 2) % 2 == 0;
        }
      }
    }
  }

  /* ----- errors ----- */

  /** Without its closing bracket a list or vector is an error. */
  lemma {:induction false} UnclosedFails(round: bool, forms: seq<Syntax>)
    requires forall i :: 0 <= i < |forms| ==> WellFormed(forms[i]) && NoClash(forms[i])
    ensures ReadStr((if round then "(" else "[") + Texts(forms))
         == Err(ErrString(if round then "expected ')', got EOF" else "expected ']', got EOF"))
  {
    hide Tokenize, Texts, TokensInAll, WellFormed, NoClash, Meanings, ReadSeq;
    var open, end := if round then '(' else '[', if round then ")" else "]";
    forall i | 0 <= i < |forms| ensures TextSplits(forms[i]) && TextReads(forms[i]) {
      EverySplits(forms[i]);
      EveryReads(forms[i]);
    }
    TextsSplit(forms, []);
    NoTokens();
    assert Texts(forms) + [] == Texts(forms) && TokensInAll(forms) + [] == TokensInAll(forms);
    BracketToken(open, Texts(forms));
    var tokens := [[open]] + TokensInAll(forms);
    assert tokens[1..] == TokensInAll(forms);
    assert tokens[1..1 + |TokensInAll(forms)|] == tokens[1..];
    FormsThenNothing(tokens, 1, end, [], forms);
    OpenReads(tokens, round);
    assert "expected '" + ")" + "', got EOF" == "expected ')', got EOF";
    assert "expected '" + "]" + "', got EOF" == "expected ']', got EOF";
    assert ReadStr([open] + Texts(forms)) == ReadStr((if round then "(" else "[") + Texts(forms));
  }

  lemma OpenReads(tokens: seq<string>, round: bool)
    requires tokens != [] && tokens[0] == [if round then '(' else '[']
    ensures ReadForm(tokens, 0) == ReadSeq(tokens, 1, if round then ")" else "]", [])
  {
    hide ReadSeq;
    assert tokens[0] == if round then "(" else "[";
  }

  lemma {:induction false} FormsThenNothing(tokens: seq<string>, pos: nat, end: string, before: seq<MalVal>,
                                            forms: seq<Syntax>)
    requires end in {")", "]"} && forall i :: 0 <= i < |forms| ==> WellFormed(forms[i]) && TextReads(forms[i])
    requires Here(tokens, pos, TokensInAll(forms)) && pos + |TokensInAll(forms)| == |tokens|
    ensures ReadSeq(tokens, pos, end, before) == Err(ErrString("expected '" + end + "', got EOF"))
    decreases |forms|
  {
    hide TokensIn, TokensInAll, ReadForm, ReadSeq, WellFormed, Meaning, Meanings;
    NoForms();
    if forms == [] {
      SeqStops(tokens, pos, end, before);
    } else {
      var first, v, more := TokensIn(forms[0]), Meaning(forms[0]), TokensInAll(forms[1..]);
      FormsStep(forms);
      assert TextReads(forms[0]);
      HereSplits(tokens, pos, first, more);
      HereFirst(tokens, pos, first);
      SeqStep(tokens, pos, end, before, v, pos + |first|);
      assert forall i :: 0 <= i < |forms| - 1 ==> forms[1..][i] == forms[i + 1];
      FormsThenNothing(tokens, pos + |first|, end, before + [v], forms[1..]);
    }
  }

  lemma SeqStops(tokens: seq<string>, pos: nat, end: string, items: seq<MalVal>)
    requires end in {")", "]"} && pos >= |tokens|
    ensures ReadSeq(tokens, pos, end, items) == Err(ErrString("expected '" + end + "', got EOF"))
  {}

  /** A text that starts with a closing bracket is an error. */
  lemma StrayCloses(close: char, rest: string)
    requires close in {')', ']', '}'}
    ensures ReadStr([close] + rest) == Err(ErrString("unexpected '" + [close] + "'"))
  {
    hide Tokenize, ReadSeq;
    BracketToken(close, rest);
    var tokens := [[close]] + Tokenize(rest);
    assert tokens[0] == if close == ')' then ")" else if close == ']' then "]" else "}";
    assert "unexpected '" + [close] + "'"
        == if close == ')' then "unexpected ')'" else if close == ']' then "unexpected ']'" else "unexpected '}'";
  }

  /** A mark without a form, and a text without any. */
  lemma NothingMarked(m: Mark)
    ensures ReadStr(MarkText(m)) == Err(ErrString("underflow"))
    ensures ReadStr([]) == Err(ErrString("no input"))
  {
    hide Tokenize, ReadSeq;
    MarkToken(m, []);
    NoTokens();
    assert MarkText(m) + [] == MarkText(m) && [MarkText(m)] + [] == [MarkText(m)];
    assert ReadForm([MarkText(m)], 1) == Err(ErrString("underflow"));
  }

  /** A string without its closing quote. */
  lemma UnclosedString(s: string)
    requires '"' !in s && '\\' !in s
    ensures ReadStr("\"" + s) == Err(ErrString("expected '\"', got EOF"))
  {
    hide ReadSeq;
    var t := "\"" + s;
    PlainBody(s);
    assert t[1..] == s;
    assert SkipBlanks(t) == t && TokenLength(t) == |t| && t[..|t|] == t && t[|t|..] == [];
    NoTokens();
    assert Tokenize(t) == [t] + [];
    assert forall i :: 0 < i < |t| ==> t[i] == s[i - 1];
    assert BodyLength(t[0 + 1..]) == |s|;
    assert !HasString(t);
    QuoteIsNoNumber(t);
  }

  lemma {:induction false} PlainBody(s: string)
    requires '"' !in s && '\\' !in s
    ensures BodyLength(s) == |s|
  {
    if s != [] { PlainBody(s[1..]); }
  }

  lemma QuoteIsNoNumber(t: string)
    requires t != [] && t[0] == '"' && !HasString(t)
    ensures ReadForm([t], 0) == Err(ErrString("expected '\"', got EOF"))
  {
    hide ReadSeq, HasString;
    assert !IsDigit(t[0]) && !IsIntToken(t);
  }

  /** A number that does not fit 64 bits stops the program. */
  lemma HugeIntPanics(i: int)
    requires !InI64(i)
    ensures ReadStr(IntText(i)) == Err(Panic)
  {
    hide Tokenize, ReadSeq;
    var t := IntText(i);
    DigitsAreDigits(if i < 0 then -i else i);
    if i < 0 { assert t[1..] == Digits(-i); }
    assert IsIntToken(t) && IntValue(t) == i;
    DigitsAreSafe(t);
    RunToken(t, []);
    NoTokens();
    assert t + [] == t && [t] + [] == [t];
    AtomOfInt(t);
  }

  lemma AtomOfInt(t: string)
    requires IsIntToken(t) && !IsSpecial(t[0])
    ensures ReadForm([t], 0)
         == if InI64(IntValue(t)) then Ok((Int(IntValue(t)), 1)) else Err(Panic)
  {
    hide ReadSeq;
  }

  /** The last value given for a key is the one that is kept, and the other entries stay. */
  lemma {:induction false} LastValueKept(entries: seq<Entry>, k: string, v: MalVal)
    ensures Entry(k, v) in Insert(entries, k, v)
    ensures forall e :: e in Insert(entries, k, v) ==> e == Entry(k, v) || (e in entries)
    ensures forall e :: e in entries && e.key != k ==> e in Insert(entries, k, v)
    ensures DistinctKeys(entries) ==> DistinctKeys(Insert(entries, k, v))
  {
    if entries != [] {
      LastValueKept(entries[1..], k, v);
      assert forall i :: 0 <= i < |entries[1..]| ==> entries[1..][i] == entries[i + 1];
    }
  }

  /** Symbols may have these characters, and end before the others. */
  lemma SymbolCharacters(c: char)
    ensures 'a' <= c <= 'z' || 'A' <= c <= 'Z' || '0' <= c <= '9' ==> IsTokenChar(c)
    ensures c in {'-', '+', '*', '/', '<', '>', '=', '!', '?', '_', '.', ':', '&', '|', '%', '$', '#', '~', '^', '@',
                  '\\'} ==>
      IsTokenChar(c)
    ensures c in {' ', ',', '\t', '\n', '\r', '(', ')', '[', ']', '{', '}', '\'', '"', '`', ';'} ==> !IsTokenChar(c)
  {}
}
