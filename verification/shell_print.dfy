/**
 A fully parenthesised printer for command trees, and the proof that the shell's parser reads
 back exactly the tree that was printed.
 */
module ShellPrint {
  import opened ShellGrammar

  /** A command tree with its words spelled out. */
  datatype Tree =
    | TExec(words: seq<string>)
    | TRedir(tree: Tree, file: string, out: bool)
    | TPipe(left: Tree, right: Tree)
    | TList(left: Tree, right: Tree)
    | TBack(tree: Tree)

  /** The tree a parsed command denotes over its input. */
  function Text(s: Input, c: Cmd): Tree
    requires Spans(s, c)
  {
    match c
    case Exec(argv) => TExec(Words(s, argv))
    case Redir(cmd, r) => TRedir(Text(s, cmd), s[r.file.q..r.file.eq], r.out)
    case Pipe(left, right) => TPipe(Text(s, left), Text(s, right))
    case List(left, right) => TList(Text(s, left), Text(s, right))
    case Back(cmd) => TBack(Text(s, cmd))
  }

  function Words(s: Input, argv: seq<Span>): (r: seq<string>)
    requires forall i :: 0 <= i < |argv| ==> IsSpan(s, argv[i])
    ensures |r| == |argv|
  {
    if argv == [] then []
    else
      var w := argv[|argv| - 1];
      assert IsSpan(s, w);
      Words(s, argv[..|argv| - 1]) + [s[w.q..w.eq]]
  }

  predicate IsWord(w: string) {
    |w| > 0 && forall i :: 0 <= i < |w| ==> IsWordChar(w[i])
  }

  /** At most MAXARGS - 1 legal words in each command, and legal file names. */
  predicate Printable(t: Tree) {
    match t
    case TExec(words) => |words| < MAXARGS && forall i :: 0 <= i < |words| ==> IsWord(words[i])
    case TRedir(tree, file, _) => Printable(tree) && IsWord(file)
    case TPipe(left, right) => Printable(left) && Printable(right)
    case TList(left, right) => Printable(left) && Printable(right)
    case TBack(tree) => Printable(tree)
  }

  function Join(words: seq<string>): string {
    if words == [] then "" else if |words| == 1 then words[0] else words[0] + " " + Join(words[1..])
  }

  function Print(t: Tree): string
    decreases t
  {
    match t
    case TExec(words) => Join(words)
    case TRedir(tree, file, out) => "(" + Print(tree) + ")" + (if out then ">" else "<") + file
    case TPipe(left, right) => "(" + Print(left) + ")" + "|" + "(" + Print(right) + ")"
    case TList(left, right) => "(" + Print(left) + ")" + ";" + "(" + Print(right) + ")"
    case TBack(tree) => "(" + Print(tree) + ")" + "&"
  }

  /** `x` stands in the input at `pos`. */
  predicate At(s: Input, pos: nat, x: string) {
    pos + |x| <= |s| && forall i :: 0 <= i < |x| ==> s[pos + i] == x[i]
  }

  /** What may follow a printed command: the end of the input or a closing parenthesis. */
  predicate Closed(s: Input, pos: nat) {
    pos == |s| || (pos < |s| && s[pos] == ')')
  }

  lemma AtSplit(s: Input, pos: nat, x: string, y: string)
    requires At(s, pos, x + y)
    ensures At(s, pos, x) && At(s, pos + |x|, y)
  {
    forall i | 0 <= i < |x| ensures s[pos + i] == x[i] { assert (x + y)[i] == x[i]; }
    forall i | 0 <= i < |y| ensures s[pos + |x| + i] == y[i] { assert (x + y)[|x| + i] == y[i]; }
  }

  lemma AtOne(s: Input, pos: nat, x: string)
    requires |x| == 1 && At(s, pos, x)
    ensures pos < |s| && s[pos] == x[0]
  {
    assert x[0] == s[pos + 0];
  }

  lemma NoSkip(s: Input, pos: nat)
    requires pos <= |s| && (pos < |s| ==> !IsWs(s[pos]))
    ensures SkipWs(s, pos) == pos
  {
  }

  /** A symbol token with no blank after it. */
  lemma SymToken(s: Input, pos: nat)
    requires pos < |s| && IsSym(s[pos]) && s[pos] != '>'
    requires pos + 1 < |s| ==> !IsWs(s[pos + 1])
    ensures GetToken(s, pos) == Token(Sym(s[pos]), pos, pos + 1, pos + 1)
  {
    NoSkip(s, pos);
    NoSkip(s, pos + 1);
  }

  lemma {:induction false} WordEndAt(s: Input, pos: nat, w: string)
    requires At(s, pos, w) && (forall i :: 0 <= i < |w| ==> IsWordChar(w[i]))
    requires pos + |w| < |s| ==> !IsWordChar(s[pos + |w|])
    ensures WordEnd(s, pos) == pos + |w|
    decreases |w|
  {
    if w != [] {
      assert s[pos + 0] == w[0];
      forall i | 0 <= i < |w[1..]| ensures s[pos + 1 + i] == w[1..][i] {
        assert s[pos + (1 + i)] == w[1 + i];
      }
      WordEndAt(s, pos + 1, w[1..]);
    }
  }

  /** A word token, delimited on the right. */
  lemma WordToken(s: Input, pos: nat, w: string)
    requires IsWord(w) && At(s, pos, w)
    requires pos + |w| < |s| ==> !IsWordChar(s[pos + |w|])
    ensures GetToken(s, pos) == Token(Word, pos, pos + |w|, SkipWs(s, pos + |w|))
    ensures s[pos..pos + |w|] == w
    ensures IsSpan(s, Span(pos, pos + |w|))
  {
    assert s[pos + 0] == w[0];
    NoSkip(s, pos);
    WordEndAt(s, pos, w);
    assert s[pos..pos + |w|] == w;
  }

  lemma WordsAppend(s: Input, argv: seq<Span>, w: Span)
    requires (forall i :: 0 <= i < |argv| ==> IsSpan(s, argv[i])) && IsSpan(s, w)
    ensures Words(s, argv + [w]) == Words(s, argv) + [s[w.q..w.eq]]
  {
    assert (argv + [w])[..|argv|] == argv;
  }

  /** With nothing that looks like a redirection next, parseredirs adds none. */
  lemma NoRedirs(s: Input, pos: nat)
    requires pos <= |s| && (SkipWs(s, pos) < |s| ==> s[SkipWs(s, pos)] != '<' && s[SkipWs(s, pos)] != '>')
    ensures ParseRedirs(s, pos) == Ok([], SkipWs(s, pos))
  {
  }

  /** The head of a printed word list: its first word, and where the rest of it starts. */
  lemma FirstWord(s: Input, pos: nat, words: seq<string>) returns (after: nat)
    requires words != [] && At(s, pos, Join(words)) && Closed(s, pos + |Join(words)|)
    requires forall i :: 0 <= i < |words| ==> IsWord(words[i])
    ensures pos + |words[0]| <= after <= |s| && At(s, after, Join(words[1..]))
    ensures after + |Join(words[1..])| == pos + |Join(words)|
    ensures At(s, pos, words[0]) && SkipWs(s, pos + |words[0]|) == after
    ensures pos + |words[0]| < |s| ==> !IsWordChar(s[pos + |words[0]|])
    ensures after < |s| ==> s[after] != '<' && s[after] != '>' && !IsWs(s[after])
  {
    var w := words[0];
    var rest := Join(words[1..]);
    after := pos + |w|;
    if |words| > 1 {
      AtSplit(s, pos, w + " ", rest);
      AtSplit(s, pos, w, " ");
      assert " "[0] == s[pos + |w| + 0];
      after := after + 1;
      assert IsWord(words[1]);
      JoinHead(words[1..]);
      assert rest[0] == s[after + 0];
    }
    NoSkip(s, after);
  }

  /** One turn of parseexec's loop that reads a word and no redirection. */
  lemma ArgsStep(s: Input, pos: nat, argv: seq<Span>, after: nat)
    requires pos <= |s| && !Peek(s, pos, "|)&;") && GetToken(s, pos).kind == Word
    requires ParseRedirs(s, GetToken(s, pos).next) == Ok([], after)
    requires |argv| + 1 < MAXARGS && forall i :: 0 <= i < |argv| ==> IsSpan(s, argv[i])
    ensures var t := GetToken(s, pos);
      ParseArgs(s, argv, [], pos) == ParseArgs(s, argv + [Span(t.q, t.eq)], [], after)
  {
    hide Peek, GetToken, ParseRedirs, IsSpan, Spans, Wrap;
    var none: seq<Redirection> := [];
    assert none + none == none;
  }

  /** One word with no redirection after it, in parseexec's loop. */
  lemma ParseWord(s: Input, pos: nat, w: string, argv: seq<Span>, after: nat)
    requires IsWord(w) && At(s, pos, w) && pos + |w| <= after <= |s| && SkipWs(s, pos + |w|) == after
    requires pos + |w| < |s| ==> !IsWordChar(s[pos + |w|])
    requires after < |s| ==> s[after] != '<' && s[after] != '>' && !IsWs(s[after])
    requires |argv| + 1 < MAXARGS && forall i :: 0 <= i < |argv| ==> IsSpan(s, argv[i])
    ensures var span := Span(pos, pos + |w|);
      && IsSpan(s, span) && s[pos..pos + |w|] == w
      && ParseArgs(s, argv, [], pos) == ParseArgs(s, argv + [span], [], after)
  {
    hide ParseArgs, ParseRedirs, GetToken, WordEnd, IsSpan;
    assert w[0] == s[pos + 0];
    NoSkip(s, pos);
    NoSkip(s, after);
    WordToken(s, pos, w);
    NoRedirs(s, after);
    ArgsStep(s, pos, argv, after);
  }

  /** parseexec's loop reads the printed words in order and stops at the delimiter. */
  lemma {:induction false} ParseWords(s: Input, pos: nat, words: seq<string>, argv: seq<Span>)
    requires At(s, pos, Join(words)) && Closed(s, pos + |Join(words)|)
    requires forall i :: 0 <= i < |words| ==> IsWord(words[i])
    requires |argv| + |words| < MAXARGS && forall i :: 0 <= i < |argv| ==> IsSpan(s, argv[i])
    ensures var r := ParseArgs(s, argv, [], pos);
      && r.Ok? && r.pos == pos + |Join(words)|
      && Text(s, r.value) == TExec(Words(s, argv) + words)
    decreases |words|
  {
    hide IsSpan, IsWordChar, IsWs, IsWord, At, ParseArgs, SkipWs, Join, Closed;
    if words == [] {
      assert Join(words) == "" by { JoinNone(); }
      ParseNoWords(s, pos, argv);
      assert Words(s, argv) + words == Words(s, argv);
    } else {
      var w := words[0];
      var after := FirstWord(s, pos, words);
      ParseWord(s, pos, w, argv, after);
      WordsAppend(s, argv, Span(pos, pos + |w|));
      ParseWords(s, after, words[1..], argv + [Span(pos, pos + |w|)]);
      assert Words(s, argv) + [w] + words[1..] == Words(s, argv) + words;
    }
  }

  lemma JoinNone()
    ensures Join([]) == ""
  {
  }

  lemma ParseNoWords(s: Input, pos: nat, argv: seq<Span>)
    requires Closed(s, pos) && |argv| < MAXARGS && forall i :: 0 <= i < |argv| ==> IsSpan(s, argv[i])
    ensures ParseArgs(s, argv, [], pos) == Ok(Exec(argv), pos)
  {
    NoSkip(s, pos);
  }

  lemma JoinHead(words: seq<string>)
    requires |words| > 0 && IsWord(words[0])
    ensures |Join(words)| > 0 && Join(words)[0] == words[0][0]
  {
  }

  lemma PrintHead(t: Tree)
    requires Printable(t)
    ensures Print(t) != "" ==> !IsWs(Print(t)[0])
  {
    if t.TExec? && t.words != [] {
      JoinHead(t.words);
    }
  }

  /** Where a parenthesised command stands, its inside stands one further, and closed. */
  lemma InsideParen(s: Input, pos: nat, t: Tree)
    requires Printable(t) && At(s, pos, "(" + Print(t) + ")")
    ensures var e := pos + 1 + |Print(t)|;
      && pos + 1 <= e < |s| && s[pos] == '(' && s[e] == ')'
      && At(s, pos + 1, Print(t)) && Closed(s, e) && !IsWs(s[pos + 1])
  {
    AtSplit(s, pos, "(" + Print(t), ")");
    AtSplit(s, pos, "(", Print(t));
    assert "("[0] == s[pos + 0];
    assert ")"[0] == s[pos + 1 + |Print(t)| + 0];
    PrintHead(t);
    if Print(t) != "" {
      assert Print(t)[0] == s[pos + 1 + 0];
    }
  }

  /** parseexec at a parenthesis: the line inside, then the redirections after it. */
  lemma ExecBlock(s: Input, pos: nat, c: Cmd, e: nat, rs: seq<Redirection>, after: nat)
    requires pos + 1 <= e < |s| && s[pos] == '(' && !IsWs(s[pos + 1]) && s[e] == ')'
    requires e + 1 < |s| ==> !IsWs(s[e + 1])
    requires ParseLine(s, pos + 1) == Ok(c, e) && ParseRedirs(s, e + 1) == Ok(rs, after)
    ensures ParseExec(s, pos) == Ok(Wrap(c, rs), after)
  {
    hide ParseLine, ParseRedirs, Wrap, Spans, IsSpan;
    SymToken(s, pos);
    SymToken(s, e);
    NoSkip(s, pos);
    NoSkip(s, e);
  }

  lemma PipeEnd(s: Input, pos: nat, c: Cmd, e: nat)
    requires pos <= |s| && ParseExec(s, pos) == Ok(c, e) && (e < |s| ==> !IsWs(s[e]) && s[e] != '|')
    ensures ParsePipe(s, pos) == Ok(c, e)
  {
    hide ParseExec, Spans;
    NoSkip(s, e);
  }

  lemma LineEnd(s: Input, pos: nat, c: Cmd, e: nat)
    requires pos <= |s| && ParsePipe(s, pos) == Ok(c, e) && Closed(s, e)
    ensures ParseLine(s, pos) == Ok(c, e)
  {
    hide ParsePipe, Spans;
    NoSkip(s, e);
  }

  /** A parenthesised command followed by a connective, the end or another parenthesis. */
  lemma ExecParen(s: Input, pos: nat, c: Cmd, e: nat)
    requires pos + 1 <= e < |s| && s[pos] == '(' && !IsWs(s[pos + 1]) && s[e] == ')'
    requires e + 1 < |s| ==> !IsWs(s[e + 1]) && s[e + 1] != '<' && s[e + 1] != '>'
    requires ParseLine(s, pos + 1) == Ok(c, e)
    ensures ParseExec(s, pos) == Ok(c, e + 1)
  {
    hide ParseLine, ParseExec, Spans, IsSpan;
    NoSkip(s, e + 1);
    NoRedirs(s, e + 1);
    ExecBlock(s, pos, c, e, [], e + 1);
  }

  /** One turn of parseredirs' loop. */
  lemma RedirStep(s: Input, pos: nat, t: Token, f: Token)
    requires pos <= |s| && Peek(s, pos, "<>") && t == GetToken(s, pos) && f == GetToken(s, t.next) && f.kind == Word
    requires ParseRedirs(s, f.next) == Ok([], f.next)
    ensures ParseRedirs(s, pos) == Ok([Redirection(Span(f.q, f.eq), t.kind != Sym('<'))], f.next)
  {
    hide GetToken, Peek, IsSpan, SkipWs;
    var r := Redirection(Span(f.q, f.eq), t.kind != Sym('<'));
    assert [r] + [] == [r];
  }

  lemma ClosedNoWord(s: Input, pos: nat)
    requires Closed(s, pos)
    ensures pos < |s| ==> !IsWordChar(s[pos])
  {
  }

  lemma RedirToken(s: Input, pos: nat)
    requires pos + 1 < |s| && (s[pos] == '<' || s[pos] == '>') && IsWordChar(s[pos + 1])
    ensures GetToken(s, pos) == Token(Sym(s[pos]), pos, pos + 1, pos + 1) && Peek(s, pos, "<>") && !IsWs(s[pos])
  {
    NoSkip(s, pos);
    NoSkip(s, pos + 1);
    assert "<>"[0] == '<' && "<>"[1] == '>';
  }

  /** A redirection token and its file name, at the end of a command. */
  lemma OneRedir(s: Input, pos: nat, file: string, out: bool)
    requires pos < |s| && s[pos] == (if out then '>' else '<')
    requires IsWord(file) && At(s, pos + 1, file) && Closed(s, pos + 1 + |file|)
    ensures var r := Redirection(Span(pos + 1, pos + 1 + |file|), out);
      && ParseRedirs(s, pos) == Ok([r], pos + 1 + |file|)
      && IsSpan(s, r.file) && s[pos + 1..pos + 1 + |file|] == file && !IsWs(s[pos])
  {
    hide IsSpan, ParseRedirs, WordEnd, GetToken, Peek, IsWordChar, IsWs;
    assert file[0] == s[pos + 1 + 0];
    RedirToken(s, pos);
    assert pos + 1 + |file| < |s| ==> !IsWordChar(s[pos + 1 + |file|]) by { ClosedNoWord(s, pos + 1 + |file|); }
    WordToken(s, pos + 1, file);
    ClosedPlain(s, pos + 1 + |file|);
    NoSkip(s, pos + 1 + |file|);
    NoRedirs(s, pos + 1 + |file|);
    RedirStep(s, pos, GetToken(s, pos), GetToken(s, pos + 1));
  }

  /** A word list read by parseline. */
  lemma LineWords(s: Input, pos: nat, words: seq<string>)
    requires Printable(TExec(words)) && At(s, pos, Join(words)) && Closed(s, pos + |Join(words)|)
    ensures Reads(s, pos, TExec(words))
  {
    hide IsSpan, ParseArgs, ParseLine, ParsePipe, ParseBlock, Join, WordEnd;
    if words == [] {
      JoinNone();
    } else {
      JoinHead(words);
      assert Join(words)[0] == s[pos + 0];
    }
    NoSkip(s, pos);
    NoRedirs(s, pos);
    ParseWords(s, pos, words, []);
    assert Words(s, []) + words == words;
    var r := ParseArgs(s, [], [], pos);
    PipeEnd(s, pos, r.value, r.pos);
    LineEnd(s, pos, r.value, r.pos);
  }

  /** `left | right`, both read. */
  lemma PipeStep(s: Input, pos: nat, l: Cmd, e: nat, r: Cmd, end: nat)
    requires pos <= |s| && ParseExec(s, pos) == Ok(l, e) && e + 1 <= |s| && s[e] == '|'
    requires (e + 1 < |s| ==> !IsWs(s[e + 1])) && ParsePipe(s, e + 1) == Ok(r, end)
    ensures ParsePipe(s, pos) == Ok(Pipe(l, r), end)
  {
    hide ParseExec, Spans;
    NoSkip(s, e);
    SymToken(s, e);
  }

  /** `left ; right`, both read. */
  lemma ListStep(s: Input, pos: nat, l: Cmd, e: nat, r: Cmd, end: nat)
    requires pos <= |s| && ParsePipe(s, pos) == Ok(l, e) && e + 1 <= |s| && s[e] == ';'
    requires (e + 1 < |s| ==> !IsWs(s[e + 1])) && ParseLine(s, e + 1) == Ok(r, end)
    ensures ParseLine(s, pos) == Ok(List(l, r), end)
  {
    hide ParsePipe, Spans;
    NoSkip(s, e);
    SymToken(s, e);
  }

  /** `cmd &` at the end of a line. */
  lemma BackStep(s: Input, pos: nat, c: Cmd, e: nat)
    requires pos <= |s| && ParsePipe(s, pos) == Ok(c, e) && e + 1 <= |s| && s[e] == '&' && Closed(s, e + 1)
    ensures ParseLine(s, pos) == Ok(Back(c), e + 1)
  {
    hide ParsePipe;
    NoSkip(s, e);
    SymToken(s, e);
    NoSkip(s, e + 1);
    assert ParseBacks(s, c, e) == ParseBacks(s, Back(c), e + 1);
  }

  /** parseline at `pos` reads exactly the printed tree. */
  ghost predicate Reads(s: Input, pos: nat, t: Tree) {
    && pos + |Print(t)| <= |s|
    && var r := ParseLine(s, pos);
       r.Ok? && r.pos == pos + |Print(t)| && Text(s, r.value) == t
  }

  /** "(left)op(right)" at `pos`, with both insides closed. */
  ghost predicate TwoAt(s: Input, pos: nat, left: Tree, right: Tree, op: char) {
    var e := pos + 1 + |Print(left)|;
    var f := e + 3 + |Print(right)|;
    && f < |s| && s[pos] == '(' && !IsWs(s[pos + 1]) && s[e] == ')' && s[e + 1] == op
    && s[e + 2] == '(' && !IsWs(s[e + 3]) && s[f] == ')'
    && At(s, pos + 1, Print(left)) && Closed(s, e) && At(s, e + 3, Print(right)) && Closed(s, f)
  }

  lemma SplitTwo(s: Input, pos: nat, left: Tree, right: Tree, op: string)
    requires Printable(left) && Printable(right) && |op| == 1
    requires At(s, pos, "(" + Print(left) + ")" + op + "(" + Print(right) + ")")
    ensures TwoAt(s, pos, left, right, op[0])
  {
    hide At, IsWs, Print, Printable, Closed;
    var a := "(" + Print(left) + ")";
    var b := "(" + Print(right) + ")";
    assert a + op + "(" + Print(right) + ")" == a + op + b;
    AtSplit(s, pos, a + op, b);
    AtSplit(s, pos, a, op);
    AtOne(s, pos + |a|, op);
    InsideParen(s, pos, left);
    InsideParen(s, pos + |a| + 1, right);
  }

  lemma SplitRedir(s: Input, pos: nat, tree: Tree, file: string, op: string)
    requires Printable(tree) && |op| == 1 && At(s, pos, "(" + Print(tree) + ")" + op + file)
    ensures var e := pos + 1 + |Print(tree)|;
      && e + 1 < |s| && s[pos] == '(' && s[e] == ')' && !IsWs(s[pos + 1]) && s[e + 1] == op[0]
      && At(s, pos + 1, Print(tree)) && Closed(s, e) && At(s, e + 2, file)
  {
    AtSplit(s, pos, "(" + Print(tree) + ")" + op, file);
    AtSplit(s, pos, "(" + Print(tree) + ")", op);
    AtOne(s, pos + |Print(tree)| + 2, op);
    InsideParen(s, pos, tree);
  }

  lemma SplitBack(s: Input, pos: nat, tree: Tree)
    requires Printable(tree) && At(s, pos, "(" + Print(tree) + ")" + "&")
    ensures var e := pos + 1 + |Print(tree)|;
      && e + 1 < |s| && s[pos] == '(' && s[e] == ')' && !IsWs(s[pos + 1]) && s[e + 1] == '&'
      && At(s, pos + 1, Print(tree)) && Closed(s, e)
  {
    AtSplit(s, pos, "(" + Print(tree) + ")", "&");
    AtOne(s, pos + |Print(tree)| + 2, "&");
    InsideParen(s, pos, tree);
  }

  lemma PrintedRedir(s: Input, pos: nat, tree: Tree, file: string, out: bool)
    requires Printable(TRedir(tree, file, out)) && Reads(s, pos + 1, tree)
    requires var e := pos + 1 + |Print(tree)|;
      && e < |s| && s[pos] == '(' && s[e] == ')' && !IsWs(s[pos + 1])
      && e + 1 < |s| && s[e + 1] == (if out then '>' else '<') && At(s, e + 2, file) && Closed(s, e + 2 + |file|)
    ensures Reads(s, pos, TRedir(tree, file, out))
  {
    hide ParseLine, ParsePipe, ParseExec, ParseRedirs, IsSpan, At;
    var r := ParseLine(s, pos + 1);
    var e := r.pos;
    OneRedir(s, e + 1, file, out);
    var rd := Redirection(Span(e + 2, e + 2 + |file|), out);
    ExecBlock(s, pos, r.value, e, [rd], e + 2 + |file|);
    assert Wrap(r.value, [rd]) == Redir(r.value, rd) by { assert [rd][1..] == []; }
    PipeEnd(s, pos, Redir(r.value, rd), e + 2 + |file|);
    LineEnd(s, pos, Redir(r.value, rd), e + 2 + |file|);
  }

  lemma PrintSizes(left: Tree, right: Tree)
    ensures |Print(TPipe(left, right))| == 5 + |Print(left)| + |Print(right)|
    ensures |Print(TList(left, right))| == 5 + |Print(left)| + |Print(right)|
  {
  }

  lemma ClosedPlain(s: Input, pos: nat)
    requires Closed(s, pos)
    ensures pos < |s| ==> !IsWs(s[pos]) && s[pos] != '<' && s[pos] != '>' && s[pos] != '|'
    ensures !IsWs('(') && !IsWs('|') && !IsWs(';')
  {
  }

  /** The two halves of "(left)op(right)", each read by parseexec. */
  lemma ExecTwo(s: Input, pos: nat, left: Tree, right: Tree, op: char, l: Cmd, e: nat, r: Cmd, f: nat)
    requires TwoAt(s, pos, left, right, op) && (op == '|' || op == ';')
    requires e == pos + 2 + |Print(left)| && f == e + 3 + |Print(right)| && Closed(s, f)
    requires ParseLine(s, pos + 1) == Ok(l, e - 1) && ParseLine(s, e + 2) == Ok(r, f - 1)
    ensures s[e] == op && !IsWs(op) && !IsWs(s[e + 1]) && s[e + 1] == '('
    ensures ParseExec(s, pos) == Ok(l, e) && ParseExec(s, e + 1) == Ok(r, f)
  {
    hide ParseLine, ParseExec, At, Spans, Print, IsWs, IsSpan, Text, Closed;
    ClosedPlain(s, f);
    ExecParen(s, pos, l, e - 1);
    ExecParen(s, e + 1, r, f - 1);
  }

  lemma PrintedPipe(s: Input, pos: nat, left: Tree, right: Tree)
    requires TwoAt(s, pos, left, right, '|') && Closed(s, pos + 5 + |Print(left)| + |Print(right)|)
    requires Reads(s, pos + 1, left) && Reads(s, pos + 4 + |Print(left)|, right)
    ensures Reads(s, pos, TPipe(left, right))
  {
    hide ParseLine, ParsePipe, ParseExec, TwoAt, Spans, Print, IsWs, Closed;
    PrintSizes(left, right);
    var e, f := pos + 2 + |Print(left)|, pos + 5 + |Print(left)| + |Print(right)|;
    var l, r := ParseLine(s, pos + 1).value, ParseLine(s, e + 2).value;
    ExecTwo(s, pos, left, right, '|', l, e, r, f);
    ClosedPlain(s, f);
    PipeEnd(s, e + 1, r, f);
    PipeStep(s, pos, l, e, r, f);
    LineEnd(s, pos, Pipe(l, r), f);
  }

  lemma PrintedList(s: Input, pos: nat, left: Tree, right: Tree)
    requires TwoAt(s, pos, left, right, ';') && Closed(s, pos + 5 + |Print(left)| + |Print(right)|)
    requires Reads(s, pos + 1, left) && Reads(s, pos + 4 + |Print(left)|, right)
    ensures Reads(s, pos, TList(left, right))
  {
    hide ParseLine, ParsePipe, ParseExec, TwoAt, Spans, Print, IsWs, Closed;
    PrintSizes(left, right);
    var e, f := pos + 2 + |Print(left)|, pos + 5 + |Print(left)| + |Print(right)|;
    var l, r := ParseLine(s, pos + 1).value, ParseLine(s, e + 2).value;
    ExecTwo(s, pos, left, right, ';', l, e, r, f);
    ClosedPlain(s, f);
    PipeEnd(s, pos, l, e);
    PipeEnd(s, e + 1, r, f);
    LineEnd(s, e + 1, r, f);
    ListStep(s, pos, l, e, r, f);
  }

  lemma PrintedBack(s: Input, pos: nat, tree: Tree)
    requires Reads(s, pos + 1, tree)
    requires var e := pos + 1 + |Print(tree)|;
      && e + 1 < |s| && s[pos] == '(' && s[e] == ')' && !IsWs(s[pos + 1]) && s[e + 1] == '&' && Closed(s, e + 2)
    ensures Reads(s, pos, TBack(tree))
  {
    hide ParseLine, ParsePipe, ParseExec, At, Spans;
    var c := ParseLine(s, pos + 1);
    ExecParen(s, pos, c.value, c.pos);
    PipeEnd(s, pos, c.value, c.pos + 1);
    BackStep(s, pos, c.value, c.pos + 1);
  }

  lemma {:induction false} ParsePrinted(s: Input, pos: nat, t: Tree)
    requires Printable(t) && At(s, pos, Print(t)) && Closed(s, pos + |Print(t)|)
    ensures Reads(s, pos, t)
    decreases t
  {
    hide At, Closed, ParseLine, IsWs, Reads;
    match t
    case TExec(words) =>
      LineWords(s, pos, words);
    case TRedir(tree, file, out) =>
      SplitRedir(s, pos, tree, file, if out then ">" else "<");
      ParsePrinted(s, pos + 1, tree);
      PrintedRedir(s, pos, tree, file, out);
    case TPipe(left, right) =>
      SplitTwo(s, pos, left, right, "|");
      ParsePrinted(s, pos + 1, left);
      ParsePrinted(s, pos + |Print(left)| + 4, right);
      PrintedPipe(s, pos, left, right);
    case TList(left, right) =>
      SplitTwo(s, pos, left, right, ";");
      ParsePrinted(s, pos + 1, left);
      ParsePrinted(s, pos + |Print(left)| + 4, right);
      PrintedList(s, pos, left, right);
    case TBack(tree) =>
      SplitBack(s, pos, tree);
      ParsePrinted(s, pos + 1, tree);
      PrintedBack(s, pos, tree);
  }

  ghost predicate NulFree(x: string) {
    forall i :: 0 <= i < |x| ==> x[i] != '\0'
  }

  lemma {:induction false} JoinNulFree(words: seq<string>)
    requires forall i :: 0 <= i < |words| ==> IsWord(words[i])
    ensures NulFree(Join(words))
    decreases |words|
  {
    if words != [] {
      assert IsWord(words[0]);
      JoinNulFree(words[1..]);
    }
  }

  lemma {:induction false} PrintNulFree(t: Tree)
    requires Printable(t)
    ensures NulFree(Print(t))
    decreases t
  {
    match t
    case TExec(words) => JoinNulFree(words);
    case TRedir(tree, file, _) => PrintNulFree(tree);
    case TPipe(left, right) => PrintNulFree(left); PrintNulFree(right);
    case TList(left, right) => PrintNulFree(left); PrintNulFree(right);
    case TBack(tree) => PrintNulFree(tree);
  }

  /** The round trip: the parser reads back every printable tree. */
  lemma RoundTrip(t: Tree)
    requires Printable(t)
    ensures NulFree(Print(t))
    ensures var r := ParseCmd(Print(t)); r.Ok? && Text(Print(t), r.value) == t
  {
    hide ParseLine, Print;
    PrintNulFree(t);
    var s: Input := Print(t);
    ParsePrinted(s, 0, t);
    NoSkip(s, |s|);
  }

  // ---------- what the parser refuses, and the other spelling it takes ----------

  lemma {:induction false} ManyWords(s: Input, pos: nat, words: seq<string>, argv: seq<Span>)
    requires At(s, pos, Join(words)) && Closed(s, pos + |Join(words)|)
    requires forall i :: 0 <= i < |words| ==> IsWord(words[i])
    requires |argv| < MAXARGS <= |argv| + |words| && forall i :: 0 <= i < |argv| ==> IsSpan(s, argv[i])
    ensures ParseArgs(s, argv, [], pos) == Panic
    decreases |words|
  {
    hide IsSpan, IsWs, At, Join, Closed, ParseArgs, GetToken, Peek, IsWordChar, SkipWs;
    var w := words[0];
    var after := FirstWord(s, pos, words);
    if |argv| + 1 < MAXARGS {
      ParseWord(s, pos, w, argv, after);
      ManyWords(s, after, words[1..], argv + [Span(pos, pos + |w|)]);
    } else {
      WordToken(s, pos, w);
      NoStop(s, pos, w);
      LastWord(s, pos, argv);
    }
  }

  lemma LastWord(s: Input, pos: nat, argv: seq<Span>)
    requires pos <= |s| && !Peek(s, pos, "|)&;") && GetToken(s, pos).kind == Word
    requires |argv| + 1 == MAXARGS && forall i :: 0 <= i < |argv| ==> IsSpan(s, argv[i])
    ensures ParseArgs(s, argv, [], pos) == Panic
  {
    hide Peek, GetToken, ParseRedirs, IsSpan, Spans, Wrap;
  }

  lemma ExecPanics(s: Input)
    requires ParseExec(s, 0) == Panic
    ensures ParseCmd(s) == Panic
  {
    hide ParseExec, ParseBacks;
    assert ParsePipe(s, 0) == Panic;
    assert ParseLine(s, 0) == Panic;
  }

  lemma NoStop(s: Input, pos: nat, w: string)
    requires IsWord(w) && At(s, pos, w)
    ensures pos < |s| && !Peek(s, pos, "|)&;")
  {
    assert w[0] == s[pos + 0];
    NoSkip(s, pos);
  }

  /** MAXARGS or more words make the parser panic; with fewer they are read back. */
  lemma TooManyArgs(words: seq<string>)
    requires |words| >= MAXARGS && forall i :: 0 <= i < |words| ==> IsWord(words[i])
    ensures NulFree(Join(words)) && ParseCmd(Join(words)) == Panic
  {
    hide ParseArgs, ParseBlock, Join, ParseCmd;
    JoinNulFree(words);
    JoinHead(words);
    var s: Input := Join(words);
    NoSkip(s, 0);
    NoRedirs(s, 0);
    ManyWords(s, 0, words, []);
    ExecPanics(s);
  }

  /** A closing parenthesis too many is left over. */
  lemma Leftovers(t: Tree, s: Input)
    requires Printable(t) && s == Print(t) + ")"
    ensures ParseCmd(s) == Panic
  {
    hide ParseLine, Print;
    assert At(s, 0, Print(t)) by { AtSplit(s, 0, Print(t), ")"); }
    ParsePrinted(s, 0, t);
    NoSkip(s, |Print(t)|);
  }

  /** A parenthesis that is never closed. */
  lemma Unclosed(t: Tree, s: Input)
    requires Printable(t) && s == "(" + Print(t)
    ensures ParseCmd(s) == Panic
  {
    hide Print, Printable, ParseCmd, ParseExec, ParseLine, IsWs, Text, Spans;
    AtSplit(s, 0, "(", Print(t));
    PrintHead(t);
    assert |s| > 1 ==> s[1] == Print(t)[0];
    ParsePrinted(s, 1, t);
    UnclosedBlock(s);
    ExecPanics(s);
  }

  lemma UnclosedBlock(s: Input)
    requires |s| > 0 && s[0] == '(' && (|s| > 1 ==> !IsWs(s[1])) && ParseLine(s, 1).Ok? && ParseLine(s, 1).pos == |s|
    ensures ParseExec(s, 0) == Panic
  {
    hide ParseLine, ParseRedirs;
    SymToken(s, 0);
    NoSkip(s, 0);
    NoSkip(s, |s|);
    assert "("[0] == '(';
  }

  /** `>>` is taken for `>`. */
  lemma AppendRedir(s: Input, pos: nat, file: string)
    requires pos + 1 < |s| && s[pos] == '>' && s[pos + 1] == '>'
    requires IsWord(file) && At(s, pos + 2, file) && Closed(s, pos + 2 + |file|)
    ensures var r := Redirection(Span(pos + 2, pos + 2 + |file|), true);
      ParseRedirs(s, pos) == Ok([r], pos + 2 + |file|) && s[r.file.q..r.file.eq] == file
  {
    hide IsSpan, ParseRedirs, WordEnd, IsWordChar, IsWs;
    AppendToken(s, pos, file);
    ClosedNoWord(s, pos + 2 + |file|);
    WordToken(s, pos + 2, file);
    ClosedPlain(s, pos + 2 + |file|);
    NoSkip(s, pos + 2 + |file|);
    NoRedirs(s, pos + 2 + |file|);
    RedirStep(s, pos, GetToken(s, pos), GetToken(s, pos + 2));
  }

  lemma AppendToken(s: Input, pos: nat, file: string)
    requires pos + 1 < |s| && s[pos] == '>' && s[pos + 1] == '>' && IsWord(file) && At(s, pos + 2, file)
    ensures GetToken(s, pos) == Token(Append, pos, pos + 2, pos + 2) && Peek(s, pos, "<>")
  {
    assert file[0] == s[pos + 2 + 0];
    NoSkip(s, pos);
    NoSkip(s, pos + 2);
    assert "<>"[1] == '>';
  }
}
