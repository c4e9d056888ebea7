/**
 The line buffer: nulterminate cuts the words out of it in place, and afterwards every
 pointer in the command tree is a C string holding exactly its token.
 */
module ShellLine {
  import G = ShellGrammar
  import opened ShellPrint
  import opened ShellCode
  import T = ShellTyped
  import A = ShellAccepts

  /** The string a C pointer at `q` denotes. */
  function CString(b: seq<char>, q: nat): string
    decreases |b| - q
  {
    if q >= |b| || b[q] == '\0' then "" else [b[q]] + CString(b, q + 1)
  }

  lemma {:induction false} CStringIs(b: seq<char>, q: nat, e: nat)
    requires q <= e < |b| && b[e] == '\0' && forall i :: q <= i < e ==> b[i] != '\0'
    ensures CString(b, q) == b[q..e]
    decreases e - q
  {
    if q < e {
      CStringIs(b, q + 1, e);
    }
  }

  /** The tree the pointers denote: every word read as a C string. */
  function CText(b: seq<char>, c: G.Cmd): Tree {
    match c
    case Exec(argv) => TExec(seq(|argv|, i requires 0 <= i < |argv| => CString(b, argv[i].q)))
    case Redir(cmd, r) => TRedir(CText(b, cmd), CString(b, r.file.q), r.out)
    case Pipe(left, right) => TPipe(CText(b, left), CText(b, right))
    case List(left, right) => TList(CText(b, left), CText(b, right))
    case Back(cmd) => TBack(CText(b, cmd))
  }

  /** Where nulterminate writes: just past each word. */
  ghost function Ends(c: G.Cmd): set<nat> {
    match c
    case Exec(argv) => set i | 0 <= i < |argv| :: argv[i].eq
    case Redir(cmd, r) => Ends(cmd) + {r.file.eq}
    case Pipe(left, right) => Ends(left) + Ends(right)
    case List(left, right) => Ends(left) + Ends(right)
    case Back(cmd) => Ends(cmd)
  }

  /** `b` is `a` with a NUL at each of `ends` and nowhere else changed. */
  ghost predicate Cut(a: seq<char>, b: seq<char>, ends: set<nat>) {
    |b| == |a| && forall i :: 0 <= i < |a| ==> b[i] == if i in ends then '\0' else a[i]
  }

  lemma CutTwice(a: seq<char>, b: seq<char>, c: seq<char>, d: set<nat>, e: set<nat>)
    requires Cut(a, b, d) && Cut(b, c, e)
    ensures Cut(a, c, d + e)
  {
  }

  lemma {:induction false} EndsInside(s: G.Input, c: G.Cmd)
    requires G.Spans(s, c)
    ensures forall e :: e in Ends(c) ==> e <= |s| && (e < |s| ==> !G.IsWordChar(s[e]))
    decreases c
  {
    match c
    case Exec(argv) =>
      forall e | e in Ends(c) ensures e <= |s| && (e < |s| ==> !G.IsWordChar(s[e])) {
        var i :| 0 <= i < |argv| && argv[i].eq == e;
        assert G.IsSpan(s, argv[i]);
      }
    case Redir(cmd, r) => EndsInside(s, cmd);
    case Pipe(left, right) => EndsInside(s, left); EndsInside(s, right);
    case List(left, right) => EndsInside(s, left); EndsInside(s, right);
    case Back(cmd) => EndsInside(s, cmd);
  }

  /** The buffer holds the line, up to its first NUL. */
  ghost predicate Holds(b: seq<char>, s: G.Input) {
    |s| < |b| && b[|s|] == '\0' && forall i :: 0 <= i < |s| ==> b[i] == s[i]
  }

  /** Every cut falls between words, so each word of the line survives as a C string. */
  lemma WordCut(s: G.Input, a: seq<char>, b: seq<char>, ends: set<nat>, w: G.Span)
    requires Holds(a, s) && Cut(a, b, ends) && G.IsSpan(s, w) && w.eq in ends
    requires forall e :: e in ends ==> e <= |s| && (e < |s| ==> !G.IsWordChar(s[e]))
    ensures CString(b, w.q) == s[w.q..w.eq]
  {
    forall i | w.q <= i < w.eq ensures b[i] == s[i] && b[i] != '\0' {
      assert G.IsWordChar(s[i]);
    }
    CStringIs(b, w.q, w.eq);
    assert b[w.q..w.eq] == s[w.q..w.eq];
  }

  lemma {:induction false} WordsAt(s: G.Input, argv: seq<G.Span>)
    requires forall i :: 0 <= i < |argv| ==> G.IsSpan(s, argv[i])
    ensures forall i :: 0 <= i < |argv| ==> Words(s, argv)[i] == s[argv[i].q..argv[i].eq]
    decreases |argv|
  {
    if argv != [] {
      WordsAt(s, argv[..|argv| - 1]);
      assert G.IsSpan(s, argv[|argv| - 1]);
      forall i | 0 <= i < |argv| ensures Words(s, argv)[i] == s[argv[i].q..argv[i].eq] {
        if i < |argv| - 1 {
          assert argv[..|argv| - 1][i] == argv[i];
        }
      }
    }
  }

  /** After the cuts, the C strings of a tree are the tokens it was parsed from. */
  lemma {:induction false} TreeCut(s: G.Input, a: seq<char>, b: seq<char>, ends: set<nat>, c: G.Cmd)
    requires Holds(a, s) && Cut(a, b, ends) && G.Spans(s, c) && Ends(c) <= ends
    requires forall e :: e in ends ==> e <= |s| && (e < |s| ==> !G.IsWordChar(s[e]))
    ensures CText(b, c) == Text(s, c)
    decreases c
  {
    match c
    case Exec(argv) =>
      ExecCut(s, a, b, ends, argv);
    case Redir(cmd, r) =>
      TreeCut(s, a, b, ends, cmd);
      WordCut(s, a, b, ends, r.file);
    case Pipe(left, right) => TreeCut(s, a, b, ends, left); TreeCut(s, a, b, ends, right);
    case List(left, right) => TreeCut(s, a, b, ends, left); TreeCut(s, a, b, ends, right);
    case Back(cmd) => TreeCut(s, a, b, ends, cmd);
  }

  lemma ExecCut(s: G.Input, a: seq<char>, b: seq<char>, ends: set<nat>, argv: seq<G.Span>)
    requires Holds(a, s) && Cut(a, b, ends) && G.Spans(s, G.Exec(argv)) && Ends(G.Exec(argv)) <= ends
    requires forall e :: e in ends ==> e <= |s| && (e < |s| ==> !G.IsWordChar(s[e]))
    ensures CText(b, G.Exec(argv)) == TExec(Words(s, argv))
  {
    WordsAt(s, argv);
    forall i | 0 <= i < |argv| ensures CString(b, argv[i].q) == Words(s, argv)[i] {
      assert argv[i].eq in Ends(G.Exec(argv));
      WordCut(s, a, b, ends, argv[i]);
    }
  }

  /** nulterminate. */
  method NulTerminate(buf: array<char>, c: G.Cmd)
    requires forall e :: e in Ends(c) ==> e < buf.Length
    modifies buf
    ensures Cut(old(buf[..]), buf[..], Ends(c))
    decreases c
  {
    match c
    case Exec(argv) =>
      var i := 0;
      while i < |argv|
        invariant 0 <= i <= |argv|
        invariant Cut(old(buf[..]), buf[..], set k | 0 <= k < i :: argv[k].eq)
      {
        assert argv[i].eq in Ends(c);
        ghost var done := set k | 0 <= k < i :: argv[k].eq;
        assert (set k | 0 <= k < i + 1 :: argv[k].eq) == done + {argv[i].eq};
        buf[argv[i].eq] := '\0';
        i := i + 1;
      }
    case Redir(cmd, r) =>
      assert Ends(cmd) <= Ends(c) && r.file.eq in Ends(c);
      NulTerminate(buf, cmd);
      buf[r.file.eq] := '\0';
    case Pipe(left, right) =>
      assert Ends(left) <= Ends(c) && Ends(right) <= Ends(c);
      NulTerminate(buf, left);
      ghost var mid := buf[..];
      NulTerminate(buf, right);
      CutTwice(old(buf[..]), mid, buf[..], Ends(left), Ends(right));
    case List(left, right) =>
      assert Ends(left) <= Ends(c) && Ends(right) <= Ends(c);
      NulTerminate(buf, left);
      ghost var mid := buf[..];
      NulTerminate(buf, right);
      CutTwice(old(buf[..]), mid, buf[..], Ends(left), Ends(right));
    case Back(cmd) =>
      assert Ends(cmd) <= Ends(c);
      NulTerminate(buf, cmd);
  }

  /** parsecmd on a buffer holding a C string. */
  method ParseCmd(buf: array<char>) returns (r: Maybe<G.Cmd>, ghost line: G.Input)
    requires '\0' in buf[..]
    modifies buf
    ensures line == CString(old(buf[..]), 0) && |line| < buf.Length
    ensures r == Value(G.ParseCmd(line))
    ensures r.Panicked? ==> buf[..] == old(buf[..])
    ensures r.Got? ==> G.Spans(line, r.value) && CText(buf[..], r.value) == Text(line, r.value)
    ensures forall t :: Printable(t) && Print(t) == line ==> r.Got? && CText(buf[..], r.value) == t
    ensures r.Got? <==> exists l :: T.LineOk(l) && T.TypedAs(line, l)
    ensures forall l :: T.LineOk(l) && T.TypedAs(line, l) ==> r.Got? && CText(buf[..], r.value) == T.LineTree(l)
    ensures forall i :: 0 <= i < buf.Length && (i < |line| ==> G.IsWordChar(line[i])) && i != |line| ==>
      buf[i] == old(buf[i])
  {
    hide T.LineOk, T.TypedAs, T.LineTree;
    var n := 0;
    while buf[n] != '\0'
      invariant 0 <= n < buf.Length && forall i :: 0 <= i < n ==> buf[i] != '\0'
      decreases buf.Length - n
    {
      assert exists i :: n < i < buf.Length && buf[i] == '\0' by { LaterNul(buf[..], n); }
      n := n + 1;
    }
    CStringIs(buf[..], 0, n);
    var text: G.Input := buf[..n];
    line := text;
    forall t | Printable(t) && Print(t) == line
      ensures G.ParseCmd(line).Ok? && Text(line, G.ParseCmd(line).value) == t
    {
      RoundTrip(t);
    }
    A.AcceptsExactly(line);
    forall l | T.LineOk(l) && T.TypedAs(line, l)
      ensures G.ParseCmd(line).Ok? && Text(line, G.ParseCmd(line).value) == T.LineTree(l)
    {
      A.MeansOneThing(line, l);
    }
    var cursor := new Cursor(text);
    r := cursor.ParseLine();
    if r.Panicked? {
      return;
    }
    var _ := cursor.Peek("");
    if cursor.ps != n {
      return Panicked, line;
    }
    EndsInside(text, r.value);
    NulTerminate(buf, r.value);
    TreeCut(text, old(buf[..]), buf[..], Ends(r.value), r.value);
  }

  lemma LaterNul(b: seq<char>, n: nat)
    requires n < |b| && '\0' in b && b[n] != '\0' && forall i :: 0 <= i < n ==> b[i] != '\0'
    ensures exists i :: n < i < |b| && b[i] == '\0'
  {
    var i :| 0 <= i < |b| && b[i] == '\0';
    assert n < i;
  }
}
