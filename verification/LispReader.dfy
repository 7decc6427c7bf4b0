/** reader.rs: the reader as it runs, over a list of tokens with a position. */
module LispReader {
  import opened Wrappers
  import opened LispValues
  import T = LispText

  /** The matches of the token pattern one after the other; comments are dropped. */
  method Tokenize(s: string) returns (res: seq<string>)
    ensures res == T.Tokenize(s)
  {
    res := [];
    var rest := s;
    while rest != []
      invariant res + T.Tokenize(rest) == T.Tokenize(s)
      decreases |rest|
    {
      var found := T.SkipBlanks(rest);
      if found == [] {
        assert res + [] == res;
        return;
      }
      var n := T.TokenLength(found);
      if found[0] != ';' {
        assert res + ([found[..n]] + T.Tokenize(found[n..])) == res + [found[..n]] + T.Tokenize(found[n..]);
        res := res + [found[..n]];
      } else {
        assert [] + T.Tokenize(found[n..]) == T.Tokenize(found[n..]);
      }
      rest := found[n..];
    }
    assert res + [] == res;
  }

  class Reader {
    const tokens: seq<string>
    var pos: nat

    constructor (tokens: seq<string>)
      ensures this.tokens == tokens && pos == 0
    {
      this.tokens := tokens;
      pos := 0;
    }

    /** Moves on even when there is no token. */
    method Next() returns (r: Result<string, MalErr>)
      modifies this
      ensures pos == old(pos) + 1
      ensures r == if old(pos) < |tokens| then Ok(tokens[old(pos)]) else Err(ErrString("underflow"))
    {
      pos := pos + 1;
      r := if pos - 1 < |tokens| then Ok(tokens[pos - 1]) else Err(ErrString("underflow"));
    }

    method Peek() returns (r: Result<string, MalErr>)
      ensures r == if pos < |tokens| then Ok(tokens[pos]) else Err(ErrString("underflow"))
    {
      r := if pos < |tokens| then Ok(tokens[pos]) else Err(ErrString("underflow"));
    }

    /** The value read and where the reader stands; after an error it may stand anywhere. */
    predicate Follows(r: MalRet, p: T.Read)
      reads this
    {
      match p
      case Ok((v, next)) => r == Ok(v) && pos == next
      case Err(e) => r == Err(e)
    }

    method ReadAtom() returns (r: MalRet)
      requires pos < |tokens|
      modifies this
      ensures r == T.Atom(tokens[old(pos)]) && pos == old(pos) + 1
    {
      hide T.Atom;
      var token := Next();
      r := T.Atom(token.value);
    }

    method ReadSeq(end: string) returns (r: MalRet)
      requires end in {")", "]", "}"} && pos < |tokens|
      modifies this
      ensures Follows(r, T.ReadSeq(tokens, old(pos) + 1, end, []))
      decreases |tokens| - pos, 0
    {
      hide T.ReadForm, T.Close;
      var items: seq<MalVal> := [];
      var _ := Next();
      while true
        invariant old(pos) < pos
        invariant T.ReadSeq(tokens, pos, end, items) == T.ReadSeq(tokens, old(pos) + 1, end, [])
        decreases |tokens| - pos
      {
        var token := Peek();
        if token.Err? {
          return Err(ErrString("expected '" + end + "', got EOF"));
        }
        if token.value == end {
          break;
        }
        var form := ReadForm();
        if form.Err? {
          return form;
        }
        items := items + [form.value];
      }
      var _ := Next();
      r := T.Close(end, items);
    }

    method ReadWrapped(name: string) returns (r: MalRet)
      requires pos < |tokens|
      modifies this
      ensures Follows(r, T.Wrapped(name, T.ReadForm(tokens, old(pos) + 1)))
      decreases |tokens| - pos, 0
    {
      hide T.ReadForm;
      var _ := Next();
      var form := ReadForm();
      r := if form.Ok? then Ok(List([Sym(name), form.value])) else form;
    }

    method ReadForm() returns (r: MalRet)
      modifies this
      ensures Follows(r, T.ReadForm(tokens, old(pos)))
      decreases |tokens| - pos, 1
    {
      hide T.Atom, T.ReadSeq;
      var token := Peek();
      if token.Err? {
        return Err(token.error);
      }
      match token.value {
        case "'" => r := ReadWrapped("quote");
        case "`" => r := ReadWrapped("quasiquote");
        case "~" => r := ReadWrapped("unquote");
        case "~@" => r := ReadWrapped("splice-unquote");
        case "^" =>
          var _ := Next();
          var meta := ReadForm();
          if meta.Err? {
            return meta;
          }
          var form := ReadForm();
          r := if form.Ok? then Ok(List([Sym("with-meta"), form.value, meta.value])) else form;
        case "@" => r := ReadWrapped("deref");
        case ")" => r := Err(ErrString("unexpected ')'"));
        case "(" => r := ReadSeq(")");
        case "]" => r := Err(ErrString("unexpected ']'"));
        case "[" => r := ReadSeq("]");
        case "}" => r := Err(ErrString("unexpected '}'"));
        case "{" => r := ReadSeq("}");
        case _ => r := ReadAtom();
      }
    }
  }

  method ReadStr(s: string) returns (r: MalRet)
    ensures r == T.ReadStr(s)
  {
    hide T.ReadForm, T.Tokenize;
    var tokens := Tokenize(s);
    if tokens == [] {
      return Err(ErrString("no input"));
    }
    var reader := new Reader(tokens);
    r := reader.ReadForm();
  }
}
