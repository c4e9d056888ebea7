/**
 The shell's command language as sh.c reads it: tokens, and a recursive-descent grammar over
 positions in the input. Tokens are kept as spans of the input, as the C code keeps pointers.
 */
module ShellGrammar {
  const MAXARGS := 10

  /** " \t\r\n\v" */
  predicate IsWs(c: char) {
    c == ' ' || c == '\t' || c == '\r' || c == '\n' || c == '\U{0B}'
  }

  /** "<|>&;()" */
  predicate IsSym(c: char) {
    c == '<' || c == '|' || c == '>' || c == '&' || c == ';' || c == '(' || c == ')'
  }

  predicate IsWordChar(c: char) {
    !IsWs(c) && !IsSym(c) && c != '\0'
  }

  type Input = s: seq<char> | forall i :: 0 <= i < |s| ==> s[i] != '\0'

  function SkipWs(s: Input, pos: nat): (r: nat)
    requires pos <= |s|
    ensures pos <= r <= |s| && (r < |s| ==> !IsWs(s[r])) && forall i :: pos <= i < r ==> IsWs(s[i])
    decreases |s| - pos
  {
    if pos < |s| && IsWs(s[pos]) then SkipWs(s, pos + 1) else pos
  }

  function WordEnd(s: Input, pos: nat): (r: nat)
    requires pos <= |s|
    ensures pos <= r <= |s| && (r < |s| ==> !IsWordChar(s[r])) && forall i :: pos <= i < r ==> IsWordChar(s[i])
    decreases |s| - pos
  {
    if pos < |s| && IsWordChar(s[pos]) then WordEnd(s, pos + 1) else pos
  }

  datatype Kind = End | Sym(c: char) | Append | Word
  datatype Token = Token(kind: Kind, q: nat, eq: nat, next: nat)

  /** gettoken: the token after blanks, and the position after the blanks that follow it. */
  function GetToken(s: Input, pos: nat): (t: Token)
    requires pos <= |s|
    ensures pos <= t.q <= t.eq <= t.next <= |s|
    ensures t.kind == End <==> t.q == |s|
    ensures t.kind != End ==> t.q < t.eq
    ensures t.kind == Word ==> IsSpan(s, Span(t.q, t.eq))
  {
    var q := SkipWs(s, pos);
    if q == |s| then Token(End, q, q, q)
    else if s[q] == '>' && q + 1 < |s| && s[q + 1] == '>' then Token(Append, q, q + 2, SkipWs(s, q + 2))
    else if IsSym(s[q]) then Token(Sym(s[q]), q, q + 1, SkipWs(s, q + 1))
    else Token(Word, q, WordEnd(s, q), SkipWs(s, WordEnd(s, q)))
  }

  /** peek: is the next non-blank character one of `toks`? */
  predicate Peek(s: Input, pos: nat, toks: seq<char>)
    requires pos <= |s|
  {
    SkipWs(s, pos) < |s| && s[SkipWs(s, pos)] in toks
  }

  datatype Span = Span(q: nat, eq: nat)

  /** A whole word of the input. */
  predicate IsSpan(s: Input, w: Span) {
    && w.q < w.eq <= |s|
    && (forall i :: w.q <= i < w.eq ==> IsWordChar(s[i]))
    && (w.eq < |s| ==> !IsWordChar(s[w.eq]))
  }

  datatype Redirection = Redirection(file: Span, out: bool)

  datatype Cmd =
    | Exec(argv: seq<Span>)
    | Redir(cmd: Cmd, r: Redirection)
    | Pipe(left: Cmd, right: Cmd)
    | List(left: Cmd, right: Cmd)
    | Back(cmd: Cmd)

  /** Every pointer pair in the tree is a whole word of the input. */
  predicate Spans(s: Input, c: Cmd) {
    match c
    case Exec(argv) => |argv| < MAXARGS && forall i :: 0 <= i < |argv| ==> IsSpan(s, argv[i])
    case Redir(cmd, r) => Spans(s, cmd) && IsSpan(s, r.file)
    case Pipe(l, r) => Spans(s, l) && Spans(s, r)
    case List(l, r) => Spans(s, l) && Spans(s, r)
    case Back(cmd) => Spans(s, cmd)
  }

  datatype Res<T> = Panic | Ok(value: T, pos: nat)

  function Wrap(c: Cmd, rs: seq<Redirection>): Cmd
    decreases |rs|
  {
    if rs == [] then c else Wrap(Redir(c, rs[0]), rs[1..])
  }

  lemma {:induction false} WrapSpans(s: Input, c: Cmd, rs: seq<Redirection>)
    requires Spans(s, c) && forall i :: 0 <= i < |rs| ==> IsSpan(s, rs[i].file)
    ensures Spans(s, Wrap(c, rs))
    decreases |rs|
  {
    if rs != [] {
      WrapSpans(s, Redir(c, rs[0]), rs[1..]);
    }
  }

  /** parseredirs: the redirections at this point, innermost first. */
  function ParseRedirs(s: Input, pos: nat): (r: Res<seq<Redirection>>)
    requires pos <= |s|
    ensures r.Ok? ==> pos <= r.pos <= |s| && forall i :: 0 <= i < |r.value| ==> IsSpan(s, r.value[i].file)
    decreases |s| - pos
  {
    if !Peek(s, pos, "<>") then Ok([], SkipWs(s, pos))
    else
      var t := GetToken(s, pos);
      var f := GetToken(s, t.next);
      if f.kind != Word then Panic
      else
        var rest := ParseRedirs(s, f.next);
        if rest.Panic? then Panic
        else Ok([Redirection(Span(f.q, f.eq), t.kind != Sym('<'))] + rest.value, rest.pos)
  }

  /** The loop of parseexec, with the words and redirections collected so far. */
  function ParseArgs(s: Input, argv: seq<Span>, rs: seq<Redirection>, pos: nat): (r: Res<Cmd>)
    requires pos <= |s| && |argv| < MAXARGS
    requires (forall i :: 0 <= i < |argv| ==> IsSpan(s, argv[i]))
    requires (forall i :: 0 <= i < |rs| ==> IsSpan(s, rs[i].file))
    ensures r.Ok? ==> pos <= r.pos <= |s| && Spans(s, r.value)
    decreases |s| - pos
  {
    var t := GetToken(s, pos);
    if Peek(s, pos, "|)&;") then WrapSpans(s, Exec(argv), rs); Ok(Wrap(Exec(argv), rs), SkipWs(s, pos))
    else if t.kind == End then WrapSpans(s, Exec(argv), rs); Ok(Wrap(Exec(argv), rs), t.next)
    else if t.kind != Word || |argv| + 1 >= MAXARGS then Panic
    else
      var more := ParseRedirs(s, t.next);
      if more.Panic? then Panic
      else ParseArgs(s, argv + [Span(t.q, t.eq)], rs + more.value, more.pos)
  }

  function ParseExec(s: Input, pos: nat): (r: Res<Cmd>)
    requires pos <= |s|
    ensures r.Ok? ==> pos <= r.pos <= |s| && Spans(s, r.value)
    decreases |s| - pos, 1
  {
    if Peek(s, pos, "(") then ParseBlock(s, pos)
    else
      var rs := ParseRedirs(s, pos);
      if rs.Panic? then Panic else ParseArgs(s, [], rs.value, rs.pos)
  }

  function ParseBlock(s: Input, pos: nat): (r: Res<Cmd>)
    requires pos <= |s| && Peek(s, pos, "(")
    ensures r.Ok? ==> pos <= r.pos <= |s| && Spans(s, r.value)
    decreases |s| - pos, 0
  {
    var inner := ParseLine(s, GetToken(s, pos).next);
    if inner.Panic? || !Peek(s, inner.pos, ")") then Panic
    else
      var rs := ParseRedirs(s, GetToken(s, inner.pos).next);
      if rs.Panic? then Panic else WrapSpans(s, inner.value, rs.value); Ok(Wrap(inner.value, rs.value), rs.pos)
  }

  function ParsePipe(s: Input, pos: nat): (r: Res<Cmd>)
    requires pos <= |s|
    ensures r.Ok? ==> pos <= r.pos <= |s| && Spans(s, r.value)
    decreases |s| - pos, 2
  {
    var left := ParseExec(s, pos);
    if left.Panic? || !Peek(s, left.pos, "|") then (if left.Panic? then Panic else Ok(left.value, SkipWs(s, left.pos)))
    else
      var right := ParsePipe(s, GetToken(s, left.pos).next);
      if right.Panic? then Panic else Ok(Pipe(left.value, right.value), right.pos)
  }

  /** parseline's loop over `&`. */
  function ParseBacks(s: Input, c: Cmd, pos: nat): (r: (Cmd, nat))
    requires pos <= |s| && Spans(s, c)
    ensures pos <= r.1 <= |s| && Spans(s, r.0)
    decreases |s| - pos
  {
    if Peek(s, pos, "&") then ParseBacks(s, Back(c), GetToken(s, pos).next) else (c, SkipWs(s, pos))
  }

  function ParseLine(s: Input, pos: nat): (r: Res<Cmd>)
    requires pos <= |s|
    ensures r.Ok? ==> pos <= r.pos <= |s| && Spans(s, r.value)
    decreases |s| - pos, 3
  {
    var first := ParsePipe(s, pos);
    if first.Panic? then Panic
    else
      var (c, p) := ParseBacks(s, first.value, first.pos);
      if !Peek(s, p, ";") then Ok(c, SkipWs(s, p))
      else
        var rest := ParseLine(s, GetToken(s, p).next);
        if rest.Panic? then Panic else Ok(List(c, rest.value), rest.pos)
  }

  /** parsecmd, before nulterminate: the whole input must be used up. */
  function ParseCmd(s: Input): (r: Res<Cmd>)
    ensures r.Ok? ==> Spans(s, r.value)
  {
    var r := ParseLine(s, 0);
    if r.Ok? && SkipWs(s, r.pos) == |s| then r else Panic
  }
}
