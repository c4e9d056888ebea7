/**
 The other direction of ShellTyped: whatever the parser accepts is a command line as typed. So parsecmd panics
 exactly on the inputs that are no line, and a line has one meaning.
 */
module ShellAccepts {
  import opened ShellGrammar
  import opened ShellPrint
  import opened ShellTyped

  /** The text of a token has the token's kind. */
  lemma TokenText(s: Input, pos: nat)
    requires pos <= |s| && NextKind(s, pos) != End
    ensures var t := GetToken(s, pos); var x := s[t.q..t.eq];
      && TokAt(s, t, x) && IsTok(x) && t.next == SkipWs(s, t.eq) && t.q == SkipWs(s, pos)
      && (t.kind == Word <==> IsWord(x)) && (IsRd(t.kind) <==> x in ["<", ">", ">>"])
  {
    var t := GetToken(s, pos);
    var x := s[t.q..t.eq];
    assert x[0] == s[t.q];
    if t.kind == Append {
      assert x == ">>";
    } else if t.kind == Word {
      assert forall i :: 0 <= i < |x| ==> x[i] == s[t.q + i];
    } else {
      assert x == [s[t.q]];
    }
  }

  lemma {:induction false} RedirsFrom(s: Input, pos: nat) returns (rds: seq<Rd>)
    requires pos <= |s| && ParseRedirs(s, pos).Ok?
    ensures RdsOk(rds) && Lexes(s, pos, RdToks(rds)) && After(s, pos, RdToks(rds)) == ParseRedirs(s, pos).pos
    decreases |s| - pos
  {
    hide GetToken, TokAt, IsWord, IsSpan, IsTok;
    PeekSets(s, pos);
    if !IsRd(NextKind(s, pos)) {
      rds := [];
    } else {
      var t := GetToken(s, pos);
      var f := GetToken(s, t.next);
      TokenText(s, pos);
      TokenText(s, t.next);
      var rest := RedirsFrom(s, f.next);
      rds := [Rd(s[t.q..t.eq], s[f.q..f.eq])] + rest;
      assert rds[1..] == rest;
      RdLexes(s, pos, rds);
    }
  }

  lemma {:induction false} ArgsFrom(s: Input, pos: nat, argv: seq<Span>, rs: seq<Redirection>) returns (args: seq<Arg>)
    requires pos <= |s| && WordsIn(s, argv) && FilesIn(s, rs) && |argv| < MAXARGS && ParseArgs(s, argv, rs, pos).Ok?
    ensures ArgsOk(args) && |argv| + |args| < MAXARGS
    ensures Lexes(s, pos, ArgToks(args)) && After(s, pos, ArgToks(args)) == ParseArgs(s, argv, rs, pos).pos
    decreases |s| - pos
  {
    hide GetToken, TokAt, IsWord, IsSpan, IsTok, ParseArgs, ParseRedirs, RdsOk, RdToks, Wrap;
    if Stops(NextKind(s, pos)) {
      ArgsEnd(s, pos, argv, rs);
      args := [];
    } else {
      ArgsTaken(s, pos, argv, rs);
      var t := GetToken(s, pos);
      var more := ParseRedirs(s, t.next);
      TokenText(s, pos);
      ArgStep(s, pos, argv, rs);
      var rds := RedirsFrom(s, t.next);
      var rest := ArgsFrom(s, more.pos, argv + [Span(t.q, t.eq)], rs + more.value);
      args := [Arg(s[t.q..t.eq], rds)] + rest;
      assert args[1..] == rest;
      ArgLexes(s, pos, args);
    }
  }

  lemma ArgsTaken(s: Input, pos: nat, argv: seq<Span>, rs: seq<Redirection>)
    requires pos <= |s| && WordsIn(s, argv) && FilesIn(s, rs) && |argv| < MAXARGS && ParseArgs(s, argv, rs, pos).Ok?
    requires !Stops(NextKind(s, pos))
    ensures NextKind(s, pos) == Word && |argv| + 1 < MAXARGS && ParseRedirs(s, GetToken(s, pos).next).Ok?
  {
    hide GetToken, IsSpan, Peek, ParseRedirs, Wrap, SkipWs;
    PeekSets(s, pos);
  }

  lemma {:induction false} UnitFrom(s: Input, pos: nat) returns (u: Unit)
    requires pos <= |s| && ParseExec(s, pos).Ok?
    ensures UnitOk(u) && Lexes(s, pos, UnitToks(u)) && After(s, pos, UnitToks(u)) == ParseExec(s, pos).pos
    decreases |s| - pos, 1
  {
    hide GetToken, TokAt, IsSpan, IsTok, ParseExec, ParseArgs, ParseRedirs, ParseLine, RdsOk, ArgsOk, RdToks, ArgToks,
      Lexes, After, Wrap, LineToks, LineOk;
    if NextKind(s, pos) != Sym('(') {
      ExecSimple(s, pos);
      var rs := ParseRedirs(s, pos);
      var before := RedirsFrom(s, pos);
      var args := ArgsFrom(s, rs.pos, [], rs.value);
      u := Simple(before, args);
      LexJoin(s, pos, RdToks(before), ArgToks(args));
    } else {
      ExecParens(s, pos);
      TokenText(s, pos);
      SymText(s, pos, '(');
      var p := GetToken(s, pos).next;
      var line := LineFrom(s, p);
      var e := ParseLine(s, p).pos;
      SymText(s, e, ')');
      var after := RedirsFrom(s, GetToken(s, e).next);
      u := Block(line, after);
      BlockLexes(s, pos, line, after);
    }
  }

  /** A symbol's token is its one character. */
  lemma SymText(s: Input, pos: nat, c: char)
    requires pos <= |s| && NextKind(s, pos) == Sym(c)
    ensures TokAt(s, GetToken(s, pos), [c]) && pos < GetToken(s, pos).next
  {
    var t := GetToken(s, pos);
    assert s[t.q..t.eq] == [c];
  }

  lemma {:induction false} PipesFrom(s: Input, pos: nat) returns (p: Pipes)
    requires pos <= |s| && ParsePipe(s, pos).Ok?
    ensures PipesOk(p) && Lexes(s, pos, PipesToks(p)) && After(s, pos, PipesToks(p)) == ParsePipe(s, pos).pos
    decreases |s| - pos, 2
  {
    hide GetToken, TokAt, ParseExec, ParsePipe, Lexes, After, UnitToks, UnitOk;
    PipeIs(s, pos);
    var u := UnitFrom(s, pos);
    var e := ParseExec(s, pos).pos;
    AfterSkips(s, pos, UnitToks(u));
    if NextKind(s, e) != Sym('|') {
      p := One(u);
    } else {
      SymText(s, e, '|');
      var rest := PipesFrom(s, GetToken(s, e).next);
      p := Bar(u, rest);
      LexMid(s, pos, UnitToks(u), "|", PipesToks(rest));
    }
  }

  lemma {:induction false} BacksFrom(s: Input, c: Cmd, pos: nat) returns (n: nat)
    requires pos <= |s| && Spans(s, c)
    ensures Lexes(s, pos, Amps(n)) && After(s, pos, Amps(n)) == ParseBacks(s, c, pos).1
    decreases |s| - pos
  {
    hide GetToken, TokAt, ParseBacks, Spans;
    BacksIs(s, c, pos);
    if NextKind(s, pos) == Sym('&') {
      SymText(s, pos, '&');
      BackSpans(s, c);
      var m := BacksFrom(s, Back(c), GetToken(s, pos).next);
      n := m + 1;
      assert Amps(n)[0] == "&" && Amps(n)[1..] == Amps(m);
    } else {
      n := 0;
    }
  }

  lemma BackSpans(s: Input, c: Cmd)
    requires Spans(s, c)
    ensures Spans(s, Back(c))
  {
  }

  lemma {:induction false} LineFrom(s: Input, pos: nat) returns (l: Line)
    requires pos <= |s| && ParseLine(s, pos).Ok?
    ensures LineOk(l) && Lexes(s, pos, LineToks(l)) && After(s, pos, LineToks(l)) == ParseLine(s, pos).pos
    decreases |s| - pos, 3
  {
    hide GetToken, TokAt, ParsePipe, ParseLine, ParseBacks, Lexes, After, PipesToks, PipesOk, Amps, Spans;
    LineIs(s, pos);
    var first := ParsePipe(s, pos);
    var p := PipesFrom(s, pos);
    var n := BacksFrom(s, first.value, first.pos);
    var e := ParseBacks(s, first.value, first.pos).1;
    var front := PipesToks(p) + Amps(n);
    LexJoin(s, pos, PipesToks(p), Amps(n));
    AfterSkips(s, pos, front);
    if NextKind(s, e) != Sym(';') {
      l := Ends(p, n);
    } else {
      SymText(s, e, ';');
      var rest := LineFrom(s, GetToken(s, e).next);
      l := Semi(p, n, rest);
      LexMid(s, pos, front, ";", LineToks(rest));
    }
  }

  /** Tokens read up to the end are spelled by the input, with its own blanks as the gaps. */
  lemma {:induction false} LexSpell(s: Input, pos: nat, toks: seq<string>) returns (gaps: seq<string>)
    requires pos <= |s| && AllToks(toks) && Lexes(s, pos, toks) && After(s, pos, toks) == |s|
    ensures GapsOk(toks, gaps) && s[pos..] == Spell(toks, gaps)
    decreases |toks|
  {
    hide GetToken, IsTok, IsWord, IsWs, Runs, TokAt, KindOf, Blank, GapsOk, SkipWs;
    if toks == [] {
      BlankSlice(s, pos, |s|);
      gaps := [s[pos..|s|]];
      GapsOne(gaps);
    } else {
      var t := GetToken(s, pos);
      TokIs(s, pos, toks[0]);
      LexSkip(s, t.eq, toks[1..]);
      var rest := LexSpell(s, t.eq, toks[1..]);
      BlankSlice(s, pos, t.q);
      gaps := [s[pos..t.q]] + rest;
      assert gaps[1..] == rest && |rest| == |toks| by { GapsLong(toks[1..], rest); }
      assert s[pos..] == s[pos..t.q] + s[t.q..t.eq] + s[t.eq..];
      SpellApart(s, pos, toks, rest);
      GapsCons(toks, s[pos..t.q], rest);
    }
  }

  lemma GapsOne(gaps: seq<string>)
    requires |gaps| == 1 && Blank(gaps[0])
    ensures GapsOk([], gaps)
  {
  }

  lemma GapsLong(toks: seq<string>, gaps: seq<string>)
    requires GapsOk(toks, gaps)
    ensures |gaps| == |toks| + 1
  {
  }

  lemma GapsCons(toks: seq<string>, gap: string, rest: seq<string>)
    requires toks != [] && GapsOk(toks[1..], rest) && Blank(gap)
    requires |toks| > 1 && Runs(toks[0], toks[1]) ==> rest[0] != ""
    ensures GapsOk(toks, [gap] + rest)
  {
    hide Blank, Runs;
    var gaps := [gap] + rest;
    forall i | 0 < i < |toks| && Runs(toks[i - 1], toks[i]) ensures gaps[i] != "" {
      if i > 1 {
        assert toks[1..][i - 2] == toks[i - 1] && toks[1..][i - 1] == toks[i];
      }
    }
  }

  lemma BlankSlice(s: Input, pos: nat, q: nat)
    requires pos <= q <= |s| && SkipWs(s, pos) == q
    ensures Blank(s[pos..q])
  {
  }

  lemma TokIs(s: Input, pos: nat, x: string)
    requires pos <= |s| && IsTok(x) && TokAt(s, GetToken(s, pos), x)
    ensures var t := GetToken(s, pos);
      && t.q == SkipWs(s, pos) && t.next == SkipWs(s, t.eq) && s[t.q..t.eq] == x
      && (t.eq < |s| ==> (IsWord(x) ==> !IsWordChar(s[t.eq])) && (x == ">" ==> s[t.eq] != '>'))
  {
    TokHead(x);
    if IsWord(x) { WordKind(x); }
  }

  /** Tokens that would run together stand apart. */
  lemma SpellApart(s: Input, pos: nat, toks: seq<string>, rest: seq<string>)
    requires pos <= |s| && |toks| > 0 && AllToks(toks) && TokAt(s, GetToken(s, pos), toks[0])
    requires |rest| == |toks| && s[GetToken(s, pos).eq..] == Spell(toks[1..], rest)
    ensures |toks| > 1 && Runs(toks[0], toks[1]) ==> rest[0] != ""
  {
    hide GetToken, TokAt, KindOf, IsWordChar;
    TokIs(s, pos, toks[0]);
    var e := GetToken(s, pos).eq;
    if |toks| > 1 && rest[0] == "" {
      TokHead(toks[1]);
      assert Spell(toks[1..], rest) == toks[1] + Spell(toks[1..][1..], rest[1..]);
      assert s[e] == s[e..][0] == toks[1][0];
    }
  }

  /** parsecmd accepts exactly the lines as typed; on anything else it panics. */
  lemma AcceptsExactly(s: Input)
    ensures ParseCmd(s).Ok? <==> exists l :: LineOk(l) && TypedAs(s, l)
  {
    hide LineOk, LineToks, Lexes, After, GetToken, ParseLine, Spell, Blank, Runs;
    if ParseCmd(s).Ok? {
      var l := LineFrom(s, 0);
      AfterSkips(s, 0, LineToks(l));
      LineToksOk(l);
      var gaps := LexSpell(s, 0, LineToks(l));
      assert s[0..] == s;
      assert TypedAs(s, l);
    }
    if l :| LineOk(l) && TypedAs(s, l) {
      var gaps :| GapsOk(LineToks(l), gaps) && s == Spell(LineToks(l), gaps);
      ReadsTyped(l, gaps);
    }
  }

  /** The tree parsecmd builds is what the line means, so no line has two meanings. */
  lemma MeansOneThing(s: Input, l: Line)
    requires LineOk(l) && TypedAs(s, l)
    ensures ParseCmd(s).Ok? && Text(s, ParseCmd(s).value) == LineTree(l)
  {
    hide LineOk, LineToks, LineTree, ParseCmd, Spell, Blank, Runs;
    var gaps :| GapsOk(LineToks(l), gaps) && s == Spell(LineToks(l), gaps);
    ReadsTyped(l, gaps);
  }
}
