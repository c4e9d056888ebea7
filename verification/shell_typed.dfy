/**
 Command lines as they are typed: words and redirections in any order, pipes, background marks and lists
 without parentheses or with them, and any blanks between the tokens. The parser accepts exactly these
 lines, and the tree it builds is the one the line means.
 */
module ShellTyped {
  import opened ShellGrammar
  import opened ShellPrint

  // ---------- the language ----------

  /** `<`, `>` or `>>` and a file name. */
  datatype Rd = Rd(op: string, file: string)

  /** A word and the redirections that follow it. */
  datatype Arg = Arg(word: string, after: seq<Rd>)

  datatype Unit = Simple(before: seq<Rd>, args: seq<Arg>) | Block(line: Line, after: seq<Rd>)
  datatype Pipes = One(unit: Unit) | Bar(unit: Unit, rest: Pipes)
  datatype Line = Ends(pipes: Pipes, backs: nat) | Semi(pipes: Pipes, backs: nat, rest: Line)

  predicate RdsOk(rds: seq<Rd>) {
    forall i :: 0 <= i < |rds| ==> rds[i].op in ["<", ">", ">>"] && IsWord(rds[i].file)
  }

  predicate ArgsOk(args: seq<Arg>) {
    forall i :: 0 <= i < |args| ==> IsWord(args[i].word) && RdsOk(args[i].after)
  }

  /** Fewer than MAXARGS words in each command; an empty command is one with none. */
  predicate UnitOk(u: Unit) {
    match u
    case Simple(before, args) => RdsOk(before) && ArgsOk(args) && |args| < MAXARGS
    case Block(line, after) => LineOk(line) && RdsOk(after)
  }

  predicate PipesOk(p: Pipes) {
    UnitOk(p.unit) && (p.Bar? ==> PipesOk(p.rest))
  }

  predicate LineOk(l: Line) {
    PipesOk(l.pipes) && (l.Semi? ==> LineOk(l.rest))
  }

  // ---------- what a line means ----------

  /** A redirection's file, and whether it is of the output. */
  datatype Target = Target(file: string, out: bool)

  function Targets(rds: seq<Rd>): (r: seq<Target>)
    ensures |r| == |rds| && forall i :: 0 <= i < |r| ==> r[i] == Target(rds[i].file, rds[i].op != "<")
  {
    seq(|rds|, i requires 0 <= i < |rds| => Target(rds[i].file, rds[i].op != "<"))
  }

  /** The first redirection is the innermost. */
  function Around(t: Tree, ts: seq<Target>): Tree
    decreases |ts|
  {
    if ts == [] then t else Around(TRedir(t, ts[0].file, ts[0].out), ts[1..])
  }

  function ArgWords(args: seq<Arg>): seq<string> {
    if args == [] then [] else [args[0].word] + ArgWords(args[1..])
  }

  function ArgTargets(args: seq<Arg>): seq<Target> {
    if args == [] then [] else Targets(args[0].after) + ArgTargets(args[1..])
  }

  function UnitTree(u: Unit): Tree {
    match u
    case Simple(before, args) => Around(TExec(ArgWords(args)), Targets(before) + ArgTargets(args))
    case Block(line, after) => Around(LineTree(line), Targets(after))
  }

  function PipesTree(p: Pipes): Tree {
    match p
    case One(u) => UnitTree(u)
    case Bar(u, rest) => TPipe(UnitTree(u), PipesTree(rest))
  }

  function Backs(t: Tree, n: nat): Tree
    decreases n
  {
    if n == 0 then t else Backs(TBack(t), n - 1)
  }

  function LineTree(l: Line): Tree {
    match l
    case Ends(p, n) => Backs(PipesTree(p), n)
    case Semi(p, n, rest) => TList(Backs(PipesTree(p), n), LineTree(rest))
  }

  // ---------- how it is typed ----------

  function RdToks(rds: seq<Rd>): seq<string> {
    if rds == [] then [] else [rds[0].op, rds[0].file] + RdToks(rds[1..])
  }

  function ArgToks(args: seq<Arg>): seq<string> {
    if args == [] then [] else [args[0].word] + RdToks(args[0].after) + ArgToks(args[1..])
  }

  function Amps(n: nat): seq<string> {
    if n == 0 then [] else ["&"] + Amps(n - 1)
  }

  function UnitToks(u: Unit): seq<string> {
    match u
    case Simple(before, args) => RdToks(before) + ArgToks(args)
    case Block(line, after) => ["("] + LineToks(line) + [")"] + RdToks(after)
  }

  function PipesToks(p: Pipes): seq<string> {
    match p
    case One(u) => UnitToks(u)
    case Bar(u, rest) => UnitToks(u) + ["|"] + PipesToks(rest)
  }

  function LineToks(l: Line): seq<string> {
    match l
    case Ends(p, n) => PipesToks(p) + Amps(n)
    case Semi(p, n, rest) => PipesToks(p) + Amps(n) + [";"] + LineToks(rest)
  }

  predicate Blank(gap: string) {
    forall i :: 0 <= i < |gap| ==> IsWs(gap[i])
  }

  /** Two tokens that would run together: words, and `>` before `>`. */
  predicate Runs(x: string, y: string) {
    (IsWord(x) && IsWord(y)) || (x == ">" && |y| > 0 && y[0] == '>')
  }

  /** The tokens with `gaps[i]` before the `i`th and the last gap at the end. */
  function Spell(toks: seq<string>, gaps: seq<string>): string
    requires |gaps| == |toks| + 1
    decreases |toks|
  {
    if toks == [] then gaps[0] else gaps[0] + toks[0] + Spell(toks[1..], gaps[1..])
  }

  /** Gaps are blank, and not empty where tokens would run together. */
  predicate GapsOk(toks: seq<string>, gaps: seq<string>) {
    && |gaps| == |toks| + 1
    && (forall i :: 0 <= i < |gaps| ==> Blank(gaps[i]))
    && (forall i :: 0 < i < |toks| && Runs(toks[i - 1], toks[i]) ==> gaps[i] != "")
  }

  ghost predicate TypedAs(s: string, l: Line) {
    exists gaps :: GapsOk(LineToks(l), gaps) && s == Spell(LineToks(l), gaps)
  }

  // ---------- tokens in the input ----------

  function KindOf(x: string): Kind {
    if x == ">>" then Append else if |x| == 1 && IsSym(x[0]) then Sym(x[0]) else Word
  }

  predicate IsTok(x: string) {
    x == ">>" || (|x| == 1 && IsSym(x[0])) || IsWord(x)
  }

  predicate TokAt(s: Input, t: Token, x: string) {
    t.kind == KindOf(x) && t.q <= t.eq <= |s| && s[t.q..t.eq] == x
  }

  /** gettoken called again and again from `pos` gives `toks`. */
  predicate Lexes(s: Input, pos: nat, toks: seq<string>)
    requires pos <= |s|
    decreases |toks|
  {
    toks == [] || (TokAt(s, GetToken(s, pos), toks[0]) && Lexes(s, GetToken(s, pos).next, toks[1..]))
  }

  /** Where the blanks after them end. */
  function After(s: Input, pos: nat, toks: seq<string>): (r: nat)
    requires pos <= |s|
    ensures pos <= r <= |s|
    decreases |toks|
  {
    if toks == [] then SkipWs(s, pos) else After(s, GetToken(s, pos).next, toks[1..])
  }

  function NextKind(s: Input, pos: nat): Kind
    requires pos <= |s|
  {
    GetToken(s, pos).kind
  }

  lemma SkipTwice(s: Input, pos: nat)
    requires pos <= |s|
    ensures SkipWs(s, SkipWs(s, pos)) == SkipWs(s, pos) && GetToken(s, SkipWs(s, pos)) == GetToken(s, pos)
    ensures SkipWs(s, GetToken(s, pos).next) == GetToken(s, pos).next
  {
    NoSkip(s, SkipWs(s, pos));
    NoSkip(s, GetToken(s, pos).next);
  }

  /** Tokens read from after the blanks are those read from before them. */
  lemma LexSkip(s: Input, pos: nat, toks: seq<string>)
    requires pos <= |s|
    ensures Lexes(s, SkipWs(s, pos), toks) <==> Lexes(s, pos, toks)
    ensures After(s, SkipWs(s, pos), toks) == After(s, pos, toks)
  {
    hide GetToken;
    SkipTwice(s, pos);
  }

  lemma {:induction false} LexJoin(s: Input, pos: nat, a: seq<string>, b: seq<string>)
    requires pos <= |s|
    ensures Lexes(s, pos, a + b) <==> Lexes(s, pos, a) && Lexes(s, After(s, pos, a), b)
    ensures After(s, pos, a + b) == After(s, After(s, pos, a), b)
    decreases |a|
  {
    hide GetToken, TokAt;
    if a == [] {
      assert a + b == b;
      LexSkip(s, pos, b);
    } else {
      assert (a + b)[0] == a[0] && (a + b)[1..] == a[1..] + b;
      LexJoin(s, GetToken(s, pos).next, a[1..], b);
    }
  }

  lemma LexOne(s: Input, pos: nat, x: string)
    requires pos <= |s|
    ensures Lexes(s, pos, [x]) <==> TokAt(s, GetToken(s, pos), x)
    ensures After(s, pos, [x]) == GetToken(s, pos).next
  {
    hide GetToken, TokAt;
    SkipTwice(s, pos);
    assert [x][1..] == [];
  }

  /** A symbol is the next token exactly if peek finds it. */
  lemma PeekIs(s: Input, pos: nat, c: char)
    requires pos <= |s| && IsSym(c) && c != '>'
    ensures Peek(s, pos, [c]) <==> NextKind(s, pos) == Sym(c)
  {
  }

  predicate IsRd(k: Kind) {
    k == Sym('<') || k == Sym('>') || k == Append
  }

  /** What ends a command inside a line. */
  predicate Stops(k: Kind) {
    k == End || k == Sym('|') || k == Sym(')') || k == Sym('&') || k == Sym(';')
  }

  lemma PeekSets(s: Input, pos: nat)
    requires pos <= |s|
    ensures Peek(s, pos, "<>") <==> IsRd(NextKind(s, pos))
    ensures Peek(s, pos, "|)&;") || NextKind(s, pos) == End <==> Stops(NextKind(s, pos))
    ensures Peek(s, pos, "|)&;") ==> NextKind(s, pos) != End
  {
    assert "<>" == ['<', '>'] && "|)&;" == ['|', ')', '&', ';'];
  }

  // ---------- the parser reads a typed line ----------

  predicate FilesIn(s: Input, rs: seq<Redirection>) {
    forall i :: 0 <= i < |rs| ==> IsSpan(s, rs[i].file)
  }

  predicate WordsIn(s: Input, argv: seq<Span>) {
    forall i :: 0 <= i < |argv| ==> IsSpan(s, argv[i])
  }

  /** The redirections with their files spelled out. */
  function TargetsIn(s: Input, rs: seq<Redirection>): (r: seq<Target>)
    requires FilesIn(s, rs)
    ensures |r| == |rs| && forall i :: 0 <= i < |r| ==> r[i] == Target(s[rs[i].file.q..rs[i].file.eq], rs[i].out)
  {
    seq(|rs|, i requires 0 <= i < |rs| =>
      assert IsSpan(s, rs[i].file); Target(s[rs[i].file.q..rs[i].file.eq], rs[i].out))
  }

  lemma {:induction false} WrapText(s: Input, c: Cmd, rs: seq<Redirection>)
    requires Spans(s, c) && FilesIn(s, rs)
    ensures Spans(s, Wrap(c, rs)) && Text(s, Wrap(c, rs)) == Around(Text(s, c), TargetsIn(s, rs))
    decreases |rs|
  {
    hide IsSpan;
    if rs != [] {
      WrapText(s, Redir(c, rs[0]), rs[1..]);
      assert TargetsIn(s, rs)[1..] == TargetsIn(s, rs[1..]);
    }
  }

  lemma TargetsJoin(s: Input, a: seq<Redirection>, b: seq<Redirection>)
    requires FilesIn(s, a) && FilesIn(s, b)
    ensures FilesIn(s, a + b) && TargetsIn(s, a + b) == TargetsIn(s, a) + TargetsIn(s, b)
  {
    hide IsSpan;
  }

  /** A redirection and a file name are two tokens. */
  lemma RdLexes(s: Input, pos: nat, rds: seq<Rd>)
    requires pos <= |s| && rds != []
    ensures var t := GetToken(s, pos); var f := GetToken(s, t.next);
      && (Lexes(s, pos, RdToks(rds)) <==>
           TokAt(s, t, rds[0].op) && TokAt(s, f, rds[0].file) && Lexes(s, f.next, RdToks(rds[1..])))
      && After(s, pos, RdToks(rds)) == After(s, f.next, RdToks(rds[1..]))
  {
    hide GetToken, TokAt;
    var toks := RdToks(rds);
    assert toks[0] == rds[0].op && toks[1..] == [rds[0].file] + RdToks(rds[1..]);
    assert toks[1..][0] == rds[0].file && toks[1..][1..] == RdToks(rds[1..]);
  }

  lemma RdKind(op: string)
    requires op in ["<", ">", ">>"]
    ensures IsRd(KindOf(op)) && (KindOf(op) == Sym('<') <==> op == "<") && IsTok(op)
  {
  }

  lemma WordKind(w: string)
    requires IsWord(w)
    ensures KindOf(w) == Word && IsTok(w)
  {
    assert IsWordChar(w[0]);
  }

  /** One turn of parseredirs' loop. */
  lemma RedirFirst(s: Input, pos: nat)
    requires pos <= |s| && IsRd(NextKind(s, pos)) && GetToken(s, GetToken(s, pos).next).kind == Word
    ensures var t := GetToken(s, pos); var f := GetToken(s, t.next); var rest := ParseRedirs(s, f.next);
      && IsSpan(s, Span(f.q, f.eq)) && (rest.Ok? ==> FilesIn(s, rest.value))
      && ParseRedirs(s, pos) ==
           if rest.Panic? then Panic
           else Ok([Redirection(Span(f.q, f.eq), t.kind != Sym('<'))] + rest.value, rest.pos)
  {
    hide GetToken, IsSpan, Peek, IsRd;
    PeekSets(s, pos);
  }

  lemma NoneRead(s: Input, pos: nat)
    requires pos <= |s| && !IsRd(NextKind(s, After(s, pos, [])))
    ensures ParseRedirs(s, pos) == Ok([], After(s, pos, []))
  {
    hide GetToken, Peek, IsRd;
    PeekSets(s, pos);
    SkipTwice(s, pos);
  }

  lemma {:induction false} RedirsRead(s: Input, pos: nat, rds: seq<Rd>)
    requires pos <= |s| && RdsOk(rds) && Lexes(s, pos, RdToks(rds)) && !IsRd(NextKind(s, After(s, pos, RdToks(rds))))
    ensures var r := ParseRedirs(s, pos);
      r.Ok? && r.pos == After(s, pos, RdToks(rds)) && FilesIn(s, r.value) && TargetsIn(s, r.value) == Targets(rds)
    decreases |rds|
  {
    hide GetToken, IsSpan, IsRd, KindOf, IsWord, ParseRedirs, Lexes, After;
    if rds == [] {
      NoneRead(s, pos);
    } else {
      RdLexes(s, pos, rds);
      RdKind(rds[0].op);
      WordKind(rds[0].file);
      var t := GetToken(s, pos);
      var f := GetToken(s, t.next);
      RedirsRead(s, f.next, rds[1..]);
      var rest := ParseRedirs(s, f.next);
      var r := Redirection(Span(f.q, f.eq), t.kind != Sym('<'));
      RedirFirst(s, pos);
      TargetsJoin(s, [r], rest.value);
      assert TargetsIn(s, [r]) == [Target(rds[0].file, rds[0].op != "<")];
      assert Targets(rds) == [Target(rds[0].file, rds[0].op != "<")] + Targets(rds[1..]);
    }
  }

  lemma ArgLexes(s: Input, pos: nat, args: seq<Arg>)
    requires pos <= |s| && args != []
    ensures var t := GetToken(s, pos); var e := After(s, t.next, RdToks(args[0].after));
      && (Lexes(s, pos, ArgToks(args)) <==>
           TokAt(s, t, args[0].word) && Lexes(s, t.next, RdToks(args[0].after)) && Lexes(s, e, ArgToks(args[1..])))
      && After(s, pos, ArgToks(args)) == After(s, e, ArgToks(args[1..]))
  {
    hide GetToken, TokAt;
    var toks, rest := ArgToks(args), RdToks(args[0].after) + ArgToks(args[1..]);
    assert toks[0] == args[0].word && toks[1..] == rest;
    LexJoin(s, GetToken(s, pos).next, RdToks(args[0].after), ArgToks(args[1..]));
  }

  /** The token that follows a command's words, or the first of them. */
  lemma ArgNext(s: Input, pos: nat, args: seq<Arg>)
    requires pos <= |s| && ArgsOk(args) && Lexes(s, pos, ArgToks(args))
    requires Stops(NextKind(s, After(s, pos, ArgToks(args))))
    ensures args == [] ==> Stops(NextKind(s, pos))
    ensures args != [] ==> NextKind(s, pos) == Word
    ensures !IsRd(NextKind(s, pos))
  {
    hide GetToken, IsWord, KindOf;
    if args == [] {
      SkipTwice(s, pos);
    } else {
      ArgLexes(s, pos, args);
      WordKind(args[0].word);
    }
  }

  lemma ArgsJoin(words: seq<string>, ts: seq<Target>, args: seq<Arg>)
    requires args != []
    ensures words + [args[0].word] + ArgWords(args[1..]) == words + ArgWords(args)
    ensures ts + Targets(args[0].after) + ArgTargets(args[1..]) == ts + ArgTargets(args)
  {
  }

  lemma NoArgs()
    ensures ArgWords([]) == [] && ArgTargets([]) == []
  {
  }

  lemma {:induction false} ArgsRead(s: Input, pos: nat, argv: seq<Span>, rs: seq<Redirection>, args: seq<Arg>)
    requires pos <= |s| && WordsIn(s, argv) && FilesIn(s, rs) && ArgsOk(args) && |argv| + |args| < MAXARGS
    requires Lexes(s, pos, ArgToks(args)) && Stops(NextKind(s, After(s, pos, ArgToks(args))))
    ensures var r := ParseArgs(s, argv, rs, pos);
      && r.Ok? && r.pos == After(s, pos, ArgToks(args))
      && Text(s, r.value) == Around(TExec(Words(s, argv) + ArgWords(args)), TargetsIn(s, rs) + ArgTargets(args))
    decreases |args|
  {
    hide GetToken, IsSpan, IsWord, KindOf, ParseArgs, ParseRedirs, FilesIn, Lexes, Around, RdsOk, Stops, IsRd,
      TargetsIn, Targets, After, RdToks, ArgWords, ArgTargets, Words, Wrap;
    ArgNext(s, pos, args);
    if args == [] {
      ArgsEnd(s, pos, argv, rs);
      NoArgs();
    } else {
      var t, rds := GetToken(s, pos), args[0].after;
      var e, more := After(s, t.next, RdToks(rds)), ParseRedirs(s, t.next);
      ArgLexes(s, pos, args);
      ArgNext(s, e, args[1..]);
      RedirsRead(s, t.next, rds);
      ArgStep(s, pos, argv, rs);
      ArgsRead(s, e, argv + [Span(t.q, t.eq)], rs + more.value, args[1..]);
      ArgsJoin(Words(s, argv), TargetsIn(s, rs), args);
    }
  }

  /** One turn of parseexec's loop: a word, and the redirections after it. */
  lemma ArgStep(s: Input, pos: nat, argv: seq<Span>, rs: seq<Redirection>)
    requires pos <= |s| && NextKind(s, pos) == Word && ParseRedirs(s, GetToken(s, pos).next).Ok?
    requires WordsIn(s, argv) && FilesIn(s, rs) && |argv| + 1 < MAXARGS
    ensures var t := GetToken(s, pos); var more := ParseRedirs(s, t.next);
      && WordsIn(s, argv + [Span(t.q, t.eq)]) && FilesIn(s, more.value) && FilesIn(s, rs + more.value)
      && Words(s, argv + [Span(t.q, t.eq)]) == Words(s, argv) + [s[t.q..t.eq]]
      && TargetsIn(s, rs + more.value) == TargetsIn(s, rs) + TargetsIn(s, more.value)
      && ParseArgs(s, argv, rs, pos) == ParseArgs(s, argv + [Span(t.q, t.eq)], rs + more.value, more.pos)
  {
    hide GetToken, IsSpan, ParseRedirs, ParseArgs, Words, TargetsIn;
    var t := GetToken(s, pos);
    WordsAppend(s, argv, Span(t.q, t.eq));
    TargetsJoin(s, rs, ParseRedirs(s, t.next).value);
    ArgUnfold(s, pos, argv, rs);
  }

  lemma ArgUnfold(s: Input, pos: nat, argv: seq<Span>, rs: seq<Redirection>)
    requires pos <= |s| && NextKind(s, pos) == Word && ParseRedirs(s, GetToken(s, pos).next).Ok?
    requires WordsIn(s, argv) && FilesIn(s, rs) && |argv| + 1 < MAXARGS
    ensures var t := GetToken(s, pos); var more := ParseRedirs(s, t.next);
      && WordsIn(s, argv + [Span(t.q, t.eq)]) && FilesIn(s, rs + more.value)
      && ParseArgs(s, argv, rs, pos) == ParseArgs(s, argv + [Span(t.q, t.eq)], rs + more.value, more.pos)
  {
    hide GetToken, IsSpan, Wrap, Peek, ParseRedirs, SkipWs, Spans;
    PeekSets(s, pos);
  }

  lemma ArgsEnd(s: Input, pos: nat, argv: seq<Span>, rs: seq<Redirection>)
    requires pos <= |s| && WordsIn(s, argv) && FilesIn(s, rs) && |argv| < MAXARGS && Stops(NextKind(s, pos))
    ensures ParseArgs(s, argv, rs, pos) == Ok(Wrap(Exec(argv), rs), After(s, pos, []))
    ensures Spans(s, Wrap(Exec(argv), rs))
    ensures Text(s, Wrap(Exec(argv), rs)) == Around(TExec(Words(s, argv) + []), TargetsIn(s, rs) + [])
  {
    hide IsSpan, Wrap;
    PeekSets(s, pos);
    WrapText(s, Exec(argv), rs);
    assert Words(s, argv) + [] == Words(s, argv) && TargetsIn(s, rs) + [] == TargetsIn(s, rs);
  }

  /** The parser got tree `t` and stands at `pos`. */
  ghost predicate Got(s: Input, r: Res<Cmd>, pos: nat, t: Tree) {
    r.Ok? && r.pos == pos && Spans(s, r.value) && Text(s, r.value) == t
  }

  lemma {:induction false} AfterSkips(s: Input, pos: nat, toks: seq<string>)
    requires pos <= |s|
    ensures SkipWs(s, After(s, pos, toks)) == After(s, pos, toks)
    decreases |toks|
  {
    hide GetToken;
    if toks == [] {
      SkipTwice(s, pos);
    } else {
      AfterSkips(s, GetToken(s, pos).next, toks[1..]);
    }
  }

  lemma SimpleNext(s: Input, pos: nat, before: seq<Rd>, args: seq<Arg>)
    requires pos <= |s| && RdsOk(before) && ArgsOk(args) && Lexes(s, pos, RdToks(before))
    requires var e := After(s, pos, RdToks(before));
      Lexes(s, e, ArgToks(args)) && Stops(NextKind(s, After(s, e, ArgToks(args))))
    ensures NextKind(s, pos) != Sym('(') && !IsRd(NextKind(s, After(s, pos, RdToks(before))))
  {
    hide GetToken, IsWord, KindOf, Lexes, After, TokAt;
    ArgNext(s, After(s, pos, RdToks(before)), args);
    if before == [] {
      AfterNone(s, pos);
    } else {
      RdLexes(s, pos, before);
      RdKind(before[0].op);
      FirstKind(s, pos, before[0].op);
    }
  }

  lemma AfterNone(s: Input, pos: nat)
    requires pos <= |s|
    ensures After(s, pos, []) == SkipWs(s, pos) && NextKind(s, After(s, pos, [])) == NextKind(s, pos)
  {
    hide GetToken;
    SkipTwice(s, pos);
  }

  lemma FirstKind(s: Input, pos: nat, x: string)
    requires pos <= |s| && TokAt(s, GetToken(s, pos), x)
    ensures NextKind(s, pos) == KindOf(x)
  {
  }

  lemma ExecSimple(s: Input, pos: nat)
    requires pos <= |s| && NextKind(s, pos) != Sym('(')
    ensures ParseExec(s, pos) ==
      var rs := ParseRedirs(s, pos); if rs.Panic? then Panic else ParseArgs(s, [], rs.value, rs.pos)
  {
    hide GetToken, ParseRedirs, ParseArgs, ParseBlock, Peek;
    PeekIs(s, pos, '(');
    assert "(" == ['('];
  }

  lemma SimpleRead(s: Input, pos: nat, before: seq<Rd>, args: seq<Arg>)
    requires pos <= |s| && UnitOk(Simple(before, args)) && Lexes(s, pos, RdToks(before) + ArgToks(args))
    requires Stops(NextKind(s, After(s, pos, RdToks(before) + ArgToks(args))))
    ensures Got(s, ParseExec(s, pos), After(s, pos, RdToks(before) + ArgToks(args)), UnitTree(Simple(before, args)))
  {
    hide GetToken, IsWord, KindOf, Lexes, After, ParseExec, ParseArgs, ParseRedirs, Around, Stops, IsRd, RdToks,
      ArgToks, IsSpan, TargetsIn, Targets;
    LexJoin(s, pos, RdToks(before), ArgToks(args));
    SimpleNext(s, pos, before, args);
    ExecSimple(s, pos);
    RedirsRead(s, pos, before);
    var rs := ParseRedirs(s, pos);
    ArgsRead(s, rs.pos, [], rs.value, args);
    assert Words(s, []) + ArgWords(args) == ArgWords(args);
  }

  lemma ExecParens(s: Input, pos: nat)
    requires pos <= |s| && NextKind(s, pos) == Sym('(')
    ensures var inner := ParseLine(s, GetToken(s, pos).next);
      ParseExec(s, pos) ==
        if inner.Panic? || NextKind(s, inner.pos) != Sym(')') then Panic
        else
          var rs := ParseRedirs(s, GetToken(s, inner.pos).next);
          if rs.Panic? then Panic else Ok(Wrap(inner.value, rs.value), rs.pos)
  {
    hide GetToken, ParseRedirs, ParseArgs, ParseLine, Peek, Spans, IsSpan, Wrap;
    PeekIs(s, pos, '(');
    assert "(" == ['('] && ")" == [')'];
    var inner := ParseLine(s, GetToken(s, pos).next);
    if inner.Ok? {
      PeekIs(s, inner.pos, ')');
    }
  }

  lemma PipeIs(s: Input, pos: nat)
    requires pos <= |s|
    ensures var left := ParseExec(s, pos);
      ParsePipe(s, pos) ==
        if left.Panic? then Panic
        else if NextKind(s, left.pos) != Sym('|') then Ok(left.value, SkipWs(s, left.pos))
        else
          var right := ParsePipe(s, GetToken(s, left.pos).next);
          if right.Panic? then Panic else Ok(Pipe(left.value, right.value), right.pos)
  {
    hide GetToken, ParseExec, Peek, Spans, SkipWs;
    assert "|" == ['|'];
    var left := ParseExec(s, pos);
    if left.Ok? {
      PeekIs(s, left.pos, '|');
    }
  }

  lemma BacksIs(s: Input, c: Cmd, pos: nat)
    requires pos <= |s| && Spans(s, c)
    ensures ParseBacks(s, c, pos) ==
      if NextKind(s, pos) == Sym('&') then ParseBacks(s, Back(c), GetToken(s, pos).next) else (c, SkipWs(s, pos))
  {
    hide GetToken, Peek, SkipWs;
    assert "&" == ['&'];
    PeekIs(s, pos, '&');
  }

  lemma LineIs(s: Input, pos: nat)
    requires pos <= |s|
    ensures var first := ParsePipe(s, pos);
      ParseLine(s, pos) ==
        if first.Panic? then Panic
        else
          var (c, p) := ParseBacks(s, first.value, first.pos);
          if NextKind(s, p) != Sym(';') then Ok(c, SkipWs(s, p))
          else
            var rest := ParseLine(s, GetToken(s, p).next);
            if rest.Panic? then Panic else Ok(List(c, rest.value), rest.pos)
  {
    hide GetToken, ParsePipe, Peek, Spans, SkipWs, ParseBacks;
    assert ";" == [';'];
    var first := ParsePipe(s, pos);
    if first.Ok? {
      PeekIs(s, ParseBacks(s, first.value, first.pos).1, ';');
    }
  }

  lemma LexMid(s: Input, pos: nat, a: seq<string>, x: string, b: seq<string>)
    requires pos <= |s|
    ensures var t := GetToken(s, After(s, pos, a));
      && (Lexes(s, pos, a + [x] + b) <==> Lexes(s, pos, a) && TokAt(s, t, x) && Lexes(s, t.next, b))
      && After(s, pos, a + [x] + b) == After(s, t.next, b)
  {
    hide GetToken, TokAt, Lexes, After;
    LexJoin(s, pos, a + [x], b);
    LexJoin(s, pos, a, [x]);
    LexOne(s, After(s, pos, a), x);
  }

  lemma SymKind(c: char)
    requires IsSym(c)
    ensures KindOf([c]) == Sym(c) && IsTok([c])
  {
  }

  /** "( line ) redirections" as tokens. */
  lemma BlockLexes(s: Input, pos: nat, line: Line, after: seq<Rd>)
    requires pos <= |s|
    ensures var p := GetToken(s, pos).next; var t := GetToken(s, After(s, p, LineToks(line)));
      && (Lexes(s, pos, UnitToks(Block(line, after))) <==>
           TokAt(s, GetToken(s, pos), "(") && Lexes(s, p, LineToks(line)) && TokAt(s, t, ")") &&
           Lexes(s, t.next, RdToks(after)))
      && After(s, pos, UnitToks(Block(line, after))) == After(s, t.next, RdToks(after))
  {
    hide GetToken, TokAt, Lexes, After, LineToks, RdToks;
    var rest := LineToks(line) + [")"] + RdToks(after);
    assert UnitToks(Block(line, after)) == ["("] + rest;
    LexJoin(s, pos, ["("], rest);
    LexOne(s, pos, "(");
    LexMid(s, GetToken(s, pos).next, LineToks(line), ")", RdToks(after));
  }

  lemma GotWrapped(s: Input, c: Cmd, rs: seq<Redirection>, pos: nat, t: Tree)
    requires Spans(s, c) && Text(s, c) == t && FilesIn(s, rs)
    ensures Got(s, Ok(Wrap(c, rs), pos), pos, Around(t, TargetsIn(s, rs)))
  {
    hide IsSpan, Wrap, Around, TargetsIn;
    WrapText(s, c, rs);
  }

  lemma {:induction false} UnitRead(s: Input, pos: nat, u: Unit)
    requires pos <= |s| && UnitOk(u) && Lexes(s, pos, UnitToks(u)) && Stops(NextKind(s, After(s, pos, UnitToks(u))))
    ensures Got(s, ParseExec(s, pos), After(s, pos, UnitToks(u)), UnitTree(u))
    decreases u
  {
    hide GetToken, TokAt, Lexes, After, LineToks, RdToks, ParseExec, ParseLine, ParseRedirs, Around, Wrap, KindOf,
      IsSpan, TargetsIn, Targets, RdsOk, FilesIn;
    match u
    case Simple(before, args) => SimpleRead(s, pos, before, args);
    case Block(line, after) =>
      var p := GetToken(s, pos).next;
      var e := After(s, p, LineToks(line));
      BlockLexes(s, pos, line, after);
      FirstKind(s, pos, "(");
      FirstKind(s, e, ")");
      SymKind('(');
      SymKind(')');
      LineRead(s, p, line);
      RedirsRead(s, GetToken(s, e).next, after);
      ExecParens(s, pos);
      GotWrapped(s, ParseLine(s, p).value, ParseRedirs(s, GetToken(s, e).next).value,
                 After(s, pos, UnitToks(u)), LineTree(line));
  }

  lemma {:induction false} PipesRead(s: Input, pos: nat, p: Pipes)
    requires pos <= |s| && PipesOk(p) && Lexes(s, pos, PipesToks(p))
    requires Stops(NextKind(s, After(s, pos, PipesToks(p)))) && NextKind(s, After(s, pos, PipesToks(p))) != Sym('|')
    ensures Got(s, ParsePipe(s, pos), After(s, pos, PipesToks(p)), PipesTree(p))
    decreases p
  {
    hide GetToken, TokAt, Lexes, After, UnitToks, ParseExec, ParsePipe, UnitTree, KindOf, UnitOk;
    PipeIs(s, pos);
    match p
    case One(u) =>
      UnitRead(s, pos, u);
      AfterSkips(s, pos, UnitToks(u));
    case Bar(u, rest) =>
      var e := After(s, pos, UnitToks(u));
      LexMid(s, pos, UnitToks(u), "|", PipesToks(rest));
      FirstKind(s, e, "|");
      SymKind('|');
      UnitRead(s, pos, u);
      PipesRead(s, GetToken(s, e).next, rest);
  }

  lemma {:induction false} BacksRead(s: Input, pos: nat, c: Cmd, n: nat)
    requires pos <= |s| && Spans(s, c) && Lexes(s, pos, Amps(n)) && NextKind(s, After(s, pos, Amps(n))) != Sym('&')
    ensures var (b, p) := ParseBacks(s, c, pos);
      p == After(s, pos, Amps(n)) && Spans(s, b) && Text(s, b) == Backs(Text(s, c), n)
    decreases n
  {
    hide GetToken, TokAt, ParseBacks, KindOf;
    BacksIs(s, c, pos);
    if n == 0 {
      AfterNone(s, pos);
    } else {
      assert Amps(n)[0] == "&" && Amps(n)[1..] == Amps(n - 1);
      FirstKind(s, pos, "&");
      SymKind('&');
      BacksRead(s, GetToken(s, pos).next, Back(c), n - 1);
    }
  }

  lemma AmpsNext(s: Input, pos: nat, n: nat)
    requires pos <= |s| && Lexes(s, pos, Amps(n)) && Stops(NextKind(s, After(s, pos, Amps(n))))
    ensures NextKind(s, pos) == if n == 0 then NextKind(s, After(s, pos, Amps(n))) else Sym('&')
  {
    hide GetToken, TokAt, KindOf;
    if n == 0 {
      AfterNone(s, pos);
    } else {
      FirstKind(s, pos, "&");
      SymKind('&');
    }
  }

  lemma {:induction false} LineRead(s: Input, pos: nat, l: Line)
    requires pos <= |s| && LineOk(l) && Lexes(s, pos, LineToks(l))
    requires NextKind(s, After(s, pos, LineToks(l))) in [End, Sym(')')]
    ensures Got(s, ParseLine(s, pos), After(s, pos, LineToks(l)), LineTree(l))
    decreases l
  {
    hide GetToken, TokAt, Lexes, After, PipesToks, ParsePipe, ParseLine, ParseBacks, PipesTree, KindOf, PipesOk, Backs,
      Amps;
    var front := PipesToks(l.pipes) + Amps(l.backs);
    var m, e := After(s, pos, PipesToks(l.pipes)), After(s, pos, front);
    LexJoin(s, pos, PipesToks(l.pipes), Amps(l.backs));
    if l.Semi? {
      LexMid(s, pos, front, ";", LineToks(l.rest));
      FirstKind(s, e, ";");
      SymKind(';');
      LineRead(s, GetToken(s, e).next, l.rest);
    }
    AmpsNext(s, m, l.backs);
    PipesRead(s, pos, l.pipes);
    BacksRead(s, m, ParsePipe(s, pos).value, l.backs);
    LineIs(s, pos);
    AfterSkips(s, pos, front);
  }

  // ---------- blanks ----------

  predicate AllToks(toks: seq<string>) {
    forall i :: 0 <= i < |toks| ==> IsTok(toks[i])
  }

  lemma {:induction false} RdToksOk(rds: seq<Rd>)
    requires RdsOk(rds)
    ensures AllToks(RdToks(rds))
  {
    hide IsTok, IsWord, KindOf;
    if rds != [] {
      RdKind(rds[0].op);
      WordKind(rds[0].file);
      RdToksOk(rds[1..]);
    }
  }

  lemma {:induction false} ArgToksOk(args: seq<Arg>)
    requires ArgsOk(args)
    ensures AllToks(ArgToks(args))
  {
    hide IsTok, IsWord, KindOf, RdsOk;
    if args != [] {
      WordKind(args[0].word);
      RdToksOk(args[0].after);
      ArgToksOk(args[1..]);
    }
  }

  lemma {:induction false} UnitToksOk(u: Unit)
    requires UnitOk(u)
    ensures AllToks(UnitToks(u))
    decreases u
  {
    hide IsTok, RdsOk, ArgsOk;
    match u
    case Simple(before, args) => RdToksOk(before); ArgToksOk(args);
    case Block(line, after) => LineToksOk(line); RdToksOk(after); SymKind('('); SymKind(')');
  }

  lemma {:induction false} PipesToksOk(p: Pipes)
    requires PipesOk(p)
    ensures AllToks(PipesToks(p))
    decreases p
  {
    hide IsTok, UnitOk, UnitToks;
    UnitToksOk(p.unit);
    if p.Bar? {
      SymKind('|');
      PipesToksOk(p.rest);
    }
  }

  lemma {:induction false} AmpsOk(n: nat)
    ensures AllToks(Amps(n))
  {
    hide IsTok;
    SymKind('&');
    if n > 0 {
      AmpsOk(n - 1);
    }
  }

  lemma {:induction false} LineToksOk(l: Line)
    requires LineOk(l)
    ensures AllToks(LineToks(l))
    decreases l
  {
    hide IsTok, PipesOk, PipesToks, Amps;
    PipesToksOk(l.pipes);
    AmpsOk(l.backs);
    if l.Semi? {
      SymKind(';');
      LineToksOk(l.rest);
    }
  }

  lemma {:induction false} SkipGap(s: Input, pos: nat, q: nat)
    requires pos <= q <= |s| && (forall i :: pos <= i < q ==> IsWs(s[i])) && (q < |s| ==> !IsWs(s[q]))
    ensures SkipWs(s, pos) == q
    decreases q - pos
  {
    if pos < q {
      SkipGap(s, pos + 1, q);
    }
  }

  /** A token that does not run on is read as it stands. */
  lemma TokenRead(s: Input, q: nat, x: string)
    requires IsTok(x) && At(s, q, x)
    requires q + |x| < |s| && IsWord(x) ==> !IsWordChar(s[q + |x|])
    requires q + |x| < |s| && x == ">" ==> s[q + |x|] != '>'
    ensures x != "" && !IsWs(s[q]) && TokAt(s, GetToken(s, q), x) && GetToken(s, q).next == SkipWs(s, q + |x|)
  {
    assert s[q + 0] == x[0];
    assert s[q..q + |x|] == x;
    if IsWord(x) {
      WordToken(s, q, x);
      WordKind(x);
    } else {
      NoSkip(s, q);
      assert x == ">>" ==> s[q + 1] == x[1];
    }
  }

  /** What follows the first token of a text. */
  lemma SpellTail(toks: seq<string>, gaps: seq<string>)
    requires AllToks(toks) && GapsOk(toks, gaps) && toks != []
    ensures GapsOk(toks[1..], gaps[1..]) && AllToks(toks[1..])
    ensures var tail := Spell(toks[1..], gaps[1..]);
      tail != "" ==> (IsWord(toks[0]) ==> !IsWordChar(tail[0])) && (toks[0] == ">" ==> tail[0] != '>')
  {
    hide IsTok, IsWord, Blank;
    var toks', gaps' := toks[1..], gaps[1..];
    assert forall i :: 0 <= i < |gaps'| ==> gaps'[i] == gaps[i + 1];
    assert forall i :: 0 < i < |toks'| && Runs(toks'[i - 1], toks'[i]) ==> gaps'[i] == gaps[i + 1] != "";
    assert Blank(gaps[1]);
    if gaps[1] != "" {
      BlankHead(gaps[1]);
    } else if toks' != [] {
      assert toks'[0] == toks[1] && !Runs(toks[0], toks[1]);
      TokHead(toks[1]);
    }
  }

  lemma BlankHead(gap: string)
    requires Blank(gap) && gap != ""
    ensures IsWs(gap[0]) && !IsWordChar(gap[0]) && gap[0] != '>'
  {
  }

  lemma TokHead(x: string)
    requires IsTok(x)
    ensures x != "" && (IsWord(x) <==> IsWordChar(x[0])) && !IsWs(x[0])
  {
  }

  lemma SpellHead(s: Input, pos: nat, gap: string, x: string, tail: string)
    requires pos <= |s| && s[pos..] == gap + x + tail
    ensures var q := pos + |gap|;
      && q + |x| <= |s| && At(s, q, x) && s[q + |x|..] == tail
      && (q + |x| < |s| ==> tail != "" && s[q + |x|] == tail[0])
      && forall i :: pos <= i < q ==> s[i] == gap[i - pos]
  {
    var q := pos + |gap|;
    forall i | 0 <= i < |x| ensures s[q + i] == x[i] {
      assert s[pos..][|gap| + i] == x[i];
    }
    forall i | pos <= i < q ensures s[i] == gap[i - pos] {
      assert s[pos..][i - pos] == gap[i - pos];
    }
    assert s[q + |x|..] == s[pos..][|gap| + |x|..] == tail;
  }

  lemma TokenBehind(s: Input, pos: nat, q: nat, x: string)
    requires pos <= q <= |s| && (forall i :: pos <= i < q ==> IsWs(s[i])) && IsTok(x) && At(s, q, x)
    requires q + |x| < |s| ==> (IsWord(x) ==> !IsWordChar(s[q + |x|])) && (x == ">" ==> s[q + |x|] != '>')
    ensures TokAt(s, GetToken(s, pos), x) && GetToken(s, pos).next == SkipWs(s, q + |x|)
  {
    hide GetToken, IsTok, IsWord, TokAt, IsWs, IsWordChar;
    TokenRead(s, q, x);
    SkipGap(s, pos, q);
    SkipTwice(s, pos);
  }

  /** The first token of a text, found behind its gap. */
  lemma SpellFirst(s: Input, pos: nat, gap: string, x: string, tail: string)
    requires pos <= |s| && s[pos..] == gap + x + tail && IsTok(x) && forall i :: 0 <= i < |gap| ==> IsWs(gap[i])
    requires tail != "" ==> (IsWord(x) ==> !IsWordChar(tail[0])) && (x == ">" ==> tail[0] != '>')
    ensures var e := pos + |gap| + |x|;
      && e <= |s| && s[e..] == tail && TokAt(s, GetToken(s, pos), x) && GetToken(s, pos).next == SkipWs(s, e)
  {
    hide GetToken, IsTok, IsWord, TokAt, IsWs, IsWordChar, At, SkipWs;
    SpellHead(s, pos, gap, x, tail);
    TokenBehind(s, pos, pos + |gap|, x);
  }

  /** However it is spaced, a text is read as its tokens. */
  lemma {:induction false} SpellLexes(s: Input, pos: nat, toks: seq<string>, gaps: seq<string>)
    requires pos <= |s| && AllToks(toks) && GapsOk(toks, gaps) && s[pos..] == Spell(toks, gaps)
    ensures Lexes(s, pos, toks) && After(s, pos, toks) == |s|
    decreases |toks|
  {
    hide GetToken, IsTok, IsWord, TokAt, IsWs, IsWordChar, GapsOk, AllToks, SkipWs;
    GapIs(toks, gaps);
    if toks == [] {
      assert forall i :: pos <= i < |s| ==> s[i] == s[pos..][i - pos];
      SkipGap(s, pos, |s|);
    } else {
      var e := pos + |gaps[0]| + |toks[0]|;
      SpellTail(toks, gaps);
      SpellFirst(s, pos, gaps[0], toks[0], Spell(toks[1..], gaps[1..]));
      SpellLexes(s, e, toks[1..], gaps[1..]);
      LexSkip(s, e, toks[1..]);
    }
  }

  lemma GapIs(toks: seq<string>, gaps: seq<string>)
    requires GapsOk(toks, gaps) && AllToks(toks)
    ensures |gaps| == |toks| + 1 && (forall i :: 0 <= i < |gaps[0]| ==> IsWs(gaps[0][i]))
    ensures toks != [] ==> IsTok(toks[0])
  {
  }

  lemma {:induction false} SpellNulFree(toks: seq<string>, gaps: seq<string>)
    requires AllToks(toks) && GapsOk(toks, gaps)
    ensures NulFree(Spell(toks, gaps))
    decreases |toks|
  {
    hide IsTok, GapsOk, AllToks;
    GapIs(toks, gaps);
    if toks != [] {
      SpellTail(toks, gaps);
      SpellNulFree(toks[1..], gaps[1..]);
      TokNulFree(toks[0]);
    }
  }

  lemma TokNulFree(x: string)
    requires IsTok(x)
    ensures NulFree(x)
  {
  }

  /** Every line, however it is spaced, is read as the tree it means. */
  lemma ReadsTyped(l: Line, gaps: seq<string>)
    requires LineOk(l) && GapsOk(LineToks(l), gaps)
    ensures NulFree(Spell(LineToks(l), gaps))
    ensures var s := Spell(LineToks(l), gaps); var r := ParseCmd(s); r.Ok? && Text(s, r.value) == LineTree(l)
  {
    hide LineToks, LineOk, Lexes, After, GetToken, ParseLine, Spell, LineTree, Blank, Runs;
    LineToksOk(l);
    SpellNulFree(LineToks(l), gaps);
    var s: Input := Spell(LineToks(l), gaps);
    assert s[0..] == s;
    SpellLexes(s, 0, LineToks(l), gaps);
    AtEnd(s);
    LineRead(s, 0, l);
  }

  lemma AtEnd(s: Input)
    ensures NextKind(s, |s|) == End && SkipWs(s, |s|) == |s|
  {
  }
}
