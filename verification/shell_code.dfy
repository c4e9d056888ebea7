/**
 The shell's parser as sh.c runs it: one cursor moved by every routine, loops that collect
 words and redirections, and nulterminate's pass over the line buffer.
 */
module ShellCode {
  import G = ShellGrammar
  import opened ShellPrint

  datatype Maybe<T> = Panicked | Got(value: T)

  /** The value part of a grammar result. */
  function Value<T>(r: G.Res<T>): Maybe<T> {
    if r.Panic? then Panicked else Got(r.value)
  }

  /** Blanks before a command make no difference to how it is read. */
  lemma TokenAfterBlanks(s: G.Input, pos: nat, toks: seq<char>)
    requires pos <= |s|
    ensures var p := G.SkipWs(s, pos);
      G.GetToken(s, pos) == G.GetToken(s, p) && G.Peek(s, pos, toks) == G.Peek(s, p, toks) && G.SkipWs(s, p) == p
  {
    NoSkip(s, G.SkipWs(s, pos));
  }

  lemma RedirsAfterBlanks(s: G.Input, pos: nat)
    requires pos <= |s|
    ensures G.ParseRedirs(s, pos) == G.ParseRedirs(s, G.SkipWs(s, pos))
  {
    hide G.GetToken, G.Peek, G.SkipWs, G.IsSpan;
    TokenAfterBlanks(s, pos, "<>");
  }

  lemma ArgsAfterBlanks(s: G.Input, argv: seq<G.Span>, rs: seq<G.Redirection>, pos: nat)
    requires pos <= |s| && |argv| < G.MAXARGS && AllSpans(s, argv) && AllFiles(s, rs)
    ensures G.ParseArgs(s, argv, rs, pos) == G.ParseArgs(s, argv, rs, G.SkipWs(s, pos))
  {
    hide G.ParseRedirs, G.Wrap, G.GetToken, G.Peek, G.SkipWs, G.IsSpan, G.Spans;
    TokenAfterBlanks(s, pos, "|)&;");
  }

  lemma ExecAfterBlanks(s: G.Input, pos: nat)
    requires pos <= |s|
    ensures G.ParseExec(s, pos) == G.ParseExec(s, G.SkipWs(s, pos))
  {
    hide G.GetToken, G.Peek, G.SkipWs, G.ParseRedirs, G.ParseLine, G.ParseArgs, G.Wrap;
    TokenAfterBlanks(s, pos, "(");
    RedirsAfterBlanks(s, pos);
  }

  lemma BackSpans(s: G.Input, c: G.Cmd)
    requires G.Spans(s, c)
    ensures G.Spans(s, G.Back(c))
  {
  }

  lemma BacksAfterBlanks(s: G.Input, c: G.Cmd, pos: nat)
    requires pos <= |s| && G.Spans(s, c)
    ensures G.ParseBacks(s, c, pos) == G.ParseBacks(s, c, G.SkipWs(s, pos))
  {
    hide G.GetToken, G.Peek, G.SkipWs;
    TokenAfterBlanks(s, pos, "&");
  }

  ghost predicate AllSpans(s: G.Input, argv: seq<G.Span>) {
    forall i :: 0 <= i < |argv| ==> G.IsSpan(s, argv[i])
  }

  ghost predicate AllFiles(s: G.Input, rs: seq<G.Redirection>) {
    forall i :: 0 <= i < |rs| ==> G.IsSpan(s, rs[i].file)
  }

  /** The redirections read so far, followed by the rest. */
  ghost function Joined(rs: seq<G.Redirection>, rest: G.Res<seq<G.Redirection>>): G.Res<seq<G.Redirection>> {
    if rest.Panic? then G.Panic else G.Ok(rs + rest.value, rest.pos)
  }

  lemma JoinedNone(rest: G.Res<seq<G.Redirection>>)
    ensures Joined([], rest) == rest
  {
    if rest.Ok? {
      assert [] + rest.value == rest.value;
    }
  }

  lemma RedirsStep(s: G.Input, rs: seq<G.Redirection>, pos: nat)
    requires pos <= |s| && G.Peek(s, pos, "<>")
    ensures var t := G.GetToken(s, pos); var f := G.GetToken(s, t.next);
      Joined(rs, G.ParseRedirs(s, pos)) ==
      if f.kind != G.Word then G.Panic
      else Joined(rs + [G.Redirection(G.Span(f.q, f.eq), t.kind != G.Sym('<'))], G.ParseRedirs(s, f.next))
  {
    hide G.GetToken, G.Peek, G.IsSpan, G.SkipWs;
    var t := G.GetToken(s, pos);
    var f := G.GetToken(s, t.next);
    if f.kind == G.Word {
      var r := G.Redirection(G.Span(f.q, f.eq), t.kind != G.Sym('<'));
      var rest := G.ParseRedirs(s, f.next);
      if rest.Ok? {
        assert rs + ([r] + rest.value) == rs + [r] + rest.value;
      }
    }
  }

  /** The cursor `*ps` over the text that ends at `es`. */
  class Cursor {
    const text: G.Input
    var ps: nat

    constructor (s: G.Input)
      ensures text == s && ps == 0
    {
      text := s;
      ps := 0;
    }

    method SkipBlanks()
      requires ps <= |text|
      modifies `ps
      ensures ps <= |text| && ps == G.SkipWs(text, old(ps))
    {
      while ps < |text| && G.IsWs(text[ps])
        invariant ps <= |text| && G.SkipWs(text, ps) == G.SkipWs(text, old(ps))
        decreases |text| - ps
      {
        ps := ps + 1;
      }
    }

    method GetToken() returns (t: G.Token)
      requires ps <= |text|
      modifies `ps
      ensures t == G.GetToken(text, old(ps)) && ps == t.next
    {
      SkipBlanks();
      var q := ps;
      var kind := G.End;
      if q < |text| {
        if text[q] == '>' && q + 1 < |text| && text[q + 1] == '>' {
          kind := G.Append;
          ps := q + 2;
        } else if G.IsSym(text[q]) {
          kind := G.Sym(text[q]);
          ps := q + 1;
        } else {
          kind := G.Word;
          while ps < |text| && G.IsWordChar(text[ps])
            invariant q <= ps <= |text| && G.WordEnd(text, ps) == G.WordEnd(text, q)
            decreases |text| - ps
          {
            ps := ps + 1;
          }
        }
      }
      var eq := ps;
      SkipBlanks();
      t := G.Token(kind, q, eq, ps);
    }

    method Peek(toks: seq<char>) returns (found: bool)
      requires ps <= |text|
      modifies `ps
      ensures found == G.Peek(text, old(ps), toks)
      ensures ps <= |text| && ps == G.SkipWs(text, old(ps))
      ensures G.SkipWs(text, ps) == ps && found == G.Peek(text, ps, toks)
      ensures G.GetToken(text, ps) == G.GetToken(text, old(ps))
    {
      SkipBlanks();
      found := ps < |text| && text[ps] in toks;
    }

    method ParseRedirs() returns (r: Maybe<seq<G.Redirection>>)
      requires ps <= |text|
      modifies `ps
      ensures r == Value(G.ParseRedirs(text, old(ps)))
      ensures r.Got? ==> ps == G.ParseRedirs(text, old(ps)).pos
    {
      var rs := [];
      var more := Peek("<>");
      RedirsAfterBlanks(text, old(ps));
      JoinedNone(G.ParseRedirs(text, ps));
      while more
        invariant ps <= |text| && ps == G.SkipWs(text, ps) && more == G.Peek(text, ps, "<>")
        invariant Joined(rs, G.ParseRedirs(text, ps)) == G.ParseRedirs(text, old(ps))
        decreases |text| - ps
      {
        RedirsStep(text, rs, ps);
        var t := GetToken();
        var f := GetToken();
        if f.kind != G.Word {
          return Panicked;
        }
        rs := rs + [G.Redirection(G.Span(f.q, f.eq), t.kind != G.Sym('<'))];
        RedirsAfterBlanks(text, ps);
        more := Peek("<>");
      }
      assert rs + [] == rs;
      r := Got(rs);
    }

    method ParseArgs(rs0: seq<G.Redirection>) returns (r: Maybe<G.Cmd>)
      requires ps <= |text| && AllFiles(text, rs0)
      modifies `ps
      ensures r == Value(G.ParseArgs(text, [], rs0, old(ps)))
      ensures r.Got? ==> ps == G.ParseArgs(text, [], rs0, old(ps)).pos
    {
      var argv, rs := [], rs0;
      var stop := Peek("|)&;");
      ArgsAfterBlanks(text, [], rs0, old(ps));
      while !stop
        invariant ps <= |text| && ps == G.SkipWs(text, ps) && stop == G.Peek(text, ps, "|)&;")
        invariant |argv| < G.MAXARGS && AllSpans(text, argv) && AllFiles(text, rs)
        invariant G.ParseArgs(text, argv, rs, ps) == G.ParseArgs(text, [], rs0, old(ps))
        decreases |text| - ps
      {
        var t := GetToken();
        if t.kind == G.End {
          break;
        }
        if t.kind != G.Word {
          return Panicked;
        }
        if |argv| + 1 >= G.MAXARGS {
          return Panicked;
        }
        argv := argv + [G.Span(t.q, t.eq)];
        var more := ParseRedirs();
        if more.Panicked? {
          return Panicked;
        }
        rs := rs + more.value;
        ArgsAfterBlanks(text, argv, rs, ps);
        stop := Peek("|)&;");
      }
      r := Got(G.Wrap(G.Exec(argv), rs));
    }

    method ParseExec() returns (r: Maybe<G.Cmd>)
      requires ps <= |text|
      modifies `ps
      ensures r == Value(G.ParseExec(text, old(ps)))
      ensures r.Got? ==> ps == G.ParseExec(text, old(ps)).pos
      decreases |text| - ps, 1
    {
      var paren := Peek("(");
      ExecAfterBlanks(text, old(ps));
      if paren {
        r := ParseBlock();
      } else {
        var rs := ParseRedirs();
        if rs.Panicked? {
          return Panicked;
        }
        r := ParseArgs(rs.value);
      }
    }

    method ParseBlock() returns (r: Maybe<G.Cmd>)
      requires ps <= |text| && G.Peek(text, ps, "(")
      modifies `ps
      ensures r == Value(G.ParseBlock(text, old(ps)))
      ensures r.Got? ==> ps == G.ParseBlock(text, old(ps)).pos
      decreases |text| - ps, 0
    {
      var _ := GetToken();
      var inner := ParseLine();
      if inner.Panicked? {
        return Panicked;
      }
      var close := Peek(")");
      if !close {
        return Panicked;
      }
      var _ := GetToken();
      var rs := ParseRedirs();
      if rs.Panicked? {
        return Panicked;
      }
      r := Got(G.Wrap(inner.value, rs.value));
    }

    method ParsePipe() returns (r: Maybe<G.Cmd>)
      requires ps <= |text|
      modifies `ps
      ensures r == Value(G.ParsePipe(text, old(ps)))
      ensures r.Got? ==> ps == G.ParsePipe(text, old(ps)).pos
      decreases |text| - ps, 2
    {
      r := ParseExec();
      if r.Panicked? {
        return;
      }
      var bar := Peek("|");
      if bar {
        var _ := GetToken();
        var right := ParsePipe();
        if right.Panicked? {
          return Panicked;
        }
        r := Got(G.Pipe(r.value, right.value));
      }
    }

    /** parseline's loop over `&`. */
    method ParseBacks(first: G.Cmd) returns (cmd: G.Cmd)
      requires ps <= |text| && G.Spans(text, first)
      modifies `ps
      ensures (cmd, ps) == G.ParseBacks(text, first, old(ps))
    {
      hide G.GetToken, G.Spans;
      cmd := first;
      var back := Peek("&");
      BacksAfterBlanks(text, cmd, old(ps));
      while back
        invariant old(ps) <= ps <= |text| && ps == G.SkipWs(text, ps) && back == G.Peek(text, ps, "&")
        invariant G.Spans(text, cmd) && G.ParseBacks(text, cmd, ps) == G.ParseBacks(text, first, old(ps))
        decreases |text| - ps
      {
        var _ := GetToken();
        BackSpans(text, cmd);
        cmd := G.Back(cmd);
        BacksAfterBlanks(text, cmd, ps);
        back := Peek("&");
      }
    }

    method ParseLine() returns (r: Maybe<G.Cmd>)
      requires ps <= |text|
      modifies `ps
      ensures r == Value(G.ParseLine(text, old(ps)))
      ensures r.Got? ==> ps == G.ParseLine(text, old(ps)).pos
      decreases |text| - ps, 3
    {
      r := ParsePipe();
      if r.Panicked? {
        return;
      }
      var cmd := ParseBacks(r.value);
      var semi := Peek(";");
      if semi {
        var _ := GetToken();
        var rest := ParseLine();
        if rest.Panicked? {
          return Panicked;
        }
        cmd := G.List(cmd, rest.value);
      }
      r := Got(cmd);
    }
  }
}
