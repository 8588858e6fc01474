/** A snippet as a sequence of pieces, and the verdict on it in those terms alone. */
module Pieces {
  import opened Results
  import opened Text
  import opened ReplLexer

  /** A character of code, a string, or a comment. */
  datatype Piece =
    | Plain(c: char)
    | Literal(w: string)
    | Line(w: string)
    | Block(w: string)

  /** How an input can end. */
  datatype Ending =
    | Nothing
    | OpenLiteral(w: string)
    | OpenLine(w: string)
    | OpenBlock(w: string)

  function Spelling(p: Piece): (s: string)
    ensures s != []
  {
    match p
    case Plain(c) => [c]
    case Literal(w) => ['"'] + w + ['"']
    case Line(w) => ['/', '/'] + w + ['\n']
    case Block(w) => ['/', '*'] + w + ['*', '/']
  }

  /** What is left of a piece when the contents of strings and all comments are gone. */
  function Remains(p: Piece): string
  {
    match p
    case Plain(c) => [c]
    case Literal(_) => ['"', '"']
    case Line(_) => ['\n']
    case Block(_) => ""
  }

  function EndSpelling(e: Ending): string
  {
    match e
    case Nothing => ""
    case OpenLiteral(w) => ['"'] + w
    case OpenLine(w) => ['/', '/'] + w
    case OpenBlock(w) => ['/', '*'] + w
  }

  function EndRemains(e: Ending): string { if e.OpenLiteral? then ['"'] else "" }

  function Spelled(ps: seq<Piece>, e: Ending): string
  {
    if ps == [] then EndSpelling(e) else Spelling(ps[0]) + Spelled(ps[1..], e)
  }

  function Remaining(ps: seq<Piece>, e: Ending): string
  {
    if ps == [] then EndRemains(e) else Remains(ps[0]) + Remaining(ps[1..], e)
  }

  predicate Sound(p: Piece)
  {
    match p
    case Plain(c) => c != '"'
    case Literal(w) => StringText(w)
    case Line(w) => LineText(w)
    case Block(w) => CommentText(w)
  }

  predicate EndSound(e: Ending)
  {
    match e
    case Nothing => true
    case OpenLiteral(w) => QuotesEscaped(w)
    case OpenLine(w) => LineText(w)
    case OpenBlock(w) => CommentText(w)
  }

  predicate OpensComment(s: string) { s != [] && (s[0] == '/' || s[0] == '*') }

  /** Every piece is one, and no slash of the code opens a comment. */
  predicate WellFormed(ps: seq<Piece>, e: Ending)
  {
    if ps == [] then EndSound(e)
    else
      Sound(ps[0]) && (ps[0] == Plain('/') ==> !OpensComment(Spelled(ps[1..], e))) && WellFormed(ps[1..], e)
  }

  // ----- every input is one

  lemma FirstUnescaped(w: string) returns (k: nat)
    requires !QuotesEscaped(w)
    ensures k < |w| && w[k] == '"' && StringText(w[..k])
  {
    k :| 0 <= k < |w| && w[k] == '"' && Backslashes(w, k) % 2 == 0;
    while !QuotesEscaped(w[..k])
      invariant k < |w| && w[k] == '"' && Backslashes(w, k) % 2 == 0
      decreases k
    {
      ghost var i :| 0 <= i < k && w[..k][i] == '"' && Backslashes(w[..k], i) % 2 == 0;
      BackslashesOfPart(w, k, i);
      k := i;
    }
    BackslashesOfPart(w, k, k);
  }

  lemma FirstLineEnd(w: string) returns (k: nat)
    requires !LineText(w)
    ensures k < |w| && w[k] == '\n' && LineText(w[..k])
  {
    k :| 0 <= k < |w| && w[k] == '\n';
    while !LineText(w[..k])
      invariant k < |w| && w[k] == '\n'
      decreases k
    {
      ghost var i :| 0 <= i < k && w[..k][i] == '\n';
      k := i;
    }
  }

  lemma FirstCommentEnd(w: string) returns (k: nat)
    requires !CommentText(w)
    ensures EndsCommentAt(w, k) && CommentText(w[..k])
  {
    k :| EndsCommentAt(w, k);
    while !CommentText(w[..k])
      invariant EndsCommentAt(w, k)
      decreases k
    {
      ghost var i :| 0 <= i < k && EndsCommentAt(w[..k], i);
      k := i;
    }
  }

  lemma LiteralStands(s: string, k: nat)
    requires s != [] && s[0] == '"' && k < |s[1..]| && s[1..][k] == '"'
    ensures Spelling(Literal(s[1..][..k])) <= s
  {
    assert s[..k + 2] == ['"'] + s[1..][..k] + ['"'];
  }

  lemma LineStands(s: string, k: nat)
    requires |s| >= 2 && s[0] == '/' && s[1] == '/' && k < |s[2..]| && s[2..][k] == '\n'
    ensures Spelling(Line(s[2..][..k])) <= s
  {
    assert s[..k + 3] == ['/', '/'] + s[2..][..k] + ['\n'];
  }

  lemma BlockStands(s: string, k: nat)
    requires |s| >= 2 && s[0] == '/' && s[1] == '*' && EndsCommentAt(s[2..], k)
    ensures Spelling(Block(s[2..][..k])) <= s
  {
    assert s[..k + 4] == ['/', '*'] + s[2..][..k] + ['*', '/'];
  }

  lemma EndStands(s: string, e: Ending)
    requires EndSound(e) && EndSpelling(e) == s
    ensures WellFormed([], e) && Spelled([], e) == s
  {
  }

  /** The first piece of an input that is not a mere ending. */
  lemma FirstPiece(s: string) returns (p: Piece)
    requires s != []
    requires s[0] == '"' ==> !QuotesEscaped(s[1..])
    requires |s| >= 2 && s[0] == '/' && s[1] == '/' ==> !LineText(s[2..])
    requires |s| >= 2 && s[0] == '/' && s[1] == '*' ==> !CommentText(s[2..])
    ensures Sound(p) && Spelling(p) <= s && (p == Plain('/') ==> !OpensComment(s[1..]))
  {
    hide StringText, LineText, CommentText, QuotesEscaped, EndsCommentAt, Spelling;
    if s[0] == '"' {
      var k := FirstUnescaped(s[1..]);
      LiteralStands(s, k);
      p := Literal(s[1..][..k]);
    } else if |s| >= 2 && s[0] == '/' && s[1] == '/' {
      var k := FirstLineEnd(s[2..]);
      LineStands(s, k);
      p := Line(s[2..][..k]);
    } else if |s| >= 2 && s[0] == '/' && s[1] == '*' {
      var k := FirstCommentEnd(s[2..]);
      BlockStands(s, k);
      p := Block(s[2..][..k]);
    } else {
      p := Plain(s[0]);
      PlainStands(s);
    }
  }

  lemma PlainStands(s: string)
    requires s != []
    ensures Spelling(Plain(s[0])) <= s
  {
  }

  /** Every input can be read as pieces. */
  lemma {:induction false} InPieces(s: string) returns (ps: seq<Piece>, e: Ending)
    ensures WellFormed(ps, e) && Spelled(ps, e) == s
    decreases |s|
  {
    hide WellFormed, Spelled, Sound, OpensComment, Spelling, LineText, CommentText, QuotesEscaped;
    ps, e := [], Nothing;
    if s == [] {
    } else if s[0] == '"' && QuotesEscaped(s[1..]) {
      e := OpenLiteral(s[1..]);
    } else if |s| >= 2 && s[0] == '/' && s[1] == '/' && LineText(s[2..]) {
      e := OpenLine(s[2..]);
    } else if |s| >= 2 && s[0] == '/' && s[1] == '*' && CommentText(s[2..]) {
      e := OpenBlock(s[2..]);
    } else {
      var p := FirstPiece(s);
      var rest := s[|Spelling(p)|..];
      var later, e' := InPieces(rest);
      PieceThen(s, p, later, e');
      return [p] + later, e';
    }
    EndStands(s, e);
  }

  lemma PieceThen(s: string, p: Piece, ps: seq<Piece>, e: Ending)
    requires Spelling(p) <= s && Sound(p) && WellFormed(ps, e) && Spelled(ps, e) == s[|Spelling(p)|..]
    requires p == Plain('/') ==> !OpensComment(s[1..])
    ensures WellFormed([p] + ps, e) && Spelled([p] + ps, e) == s
  {
    hide Spelling, Spelled, Sound, OpensComment, WellFormed;
    SlashSpelled();
    ConsUnfolds(p, ps, e);
    assert s == Spelling(p) + s[|Spelling(p)|..];
  }

  lemma ConsUnfolds(p: Piece, ps: seq<Piece>, e: Ending)
    ensures Spelled([p] + ps, e) == Spelling(p) + Spelled(ps, e)
    ensures WellFormed([p] + ps, e) <==>
              Sound(p) && (p == Plain('/') ==> !OpensComment(Spelled(ps, e))) && WellFormed(ps, e)
  {
    hide Spelling, Sound, OpensComment;
    assert ([p] + ps)[1..] == ps;
  }

  lemma SlashSpelled()
    ensures Spelling(Plain('/')) == ['/'] == Remains(Plain('/'))
  {
  }

  // ----- running over pieces

  /** Over `s` the lexer adds `remaining` to the code and ends inside a string or block comment, or not. */
  predicate EndsUp(code: string, s: string, remaining: string, open: bool)
  {
    var l := Run(Lexer(Code, code), s);
    Visible(l) == code + remaining && Unclosed(l) == open
  }

  lemma EndRuns(code: string, e: Ending)
    requires EndSound(e)
    ensures EndsUp(code, EndSpelling(e), EndRemains(e), e.OpenLiteral? || e.OpenBlock?)
  {
    hide Run;
    var l := Lexer(Code, code);
    match e
    case Nothing =>
      RunNothing(l);
    case OpenLiteral(w) =>
      RunParts(l, ['"'], w);
      RunOne(l, '"');
      RunExtends(Lexer(Quoted, code + ['"']), w);
      RunInString(w);
    case OpenLine(w) =>
      RunParts(l, ['/', '/'], w);
      RunTwo(l, '/', '/');
      RunExtends(Lexer(LineComment, code), w);
      LineTextIff(w);
    case OpenBlock(w) =>
      RunParts(l, ['/', '*'], w);
      RunTwo(l, '/', '*');
      RunExtends(Lexer(BlockComment, code), w);
      RunInComment(w);
  }

  /** A piece adds what remains of it to the code. */
  lemma PieceRuns(code: string, p: Piece)
    requires Sound(p) && p != Plain('/')
    ensures Run(Lexer(Code, code), Spelling(p)) == Lexer(Code, code + Remains(p))
  {
    hide Run, StringText, LineText, CommentText;
    var l := Lexer(Code, code);
    match p
    case Plain(c) => RunOne(l, c);
    case Literal(w) => RunQuoted(l, w); assert code + ['"'] + ['"'] == code + ['"', '"'];
    case Line(w) => RunLine(l, w); RunOne(l, '\n');
    case Block(w) => RunComment(l, w); assert code + "" == code;
  }

  /** A slash that opens no comment is code as well. */
  lemma SlashRuns(code: string, s: string)
    requires !OpensComment(s)
    ensures var l, l' := Run(Lexer(Code, code), ['/'] + s), Run(Lexer(Code, code + ['/']), s);
            Visible(l) == Visible(l') && Unclosed(l) == Unclosed(l')
  {
    RunParts(Lexer(Code, code), ['/'], s);
    RunOne(Lexer(Code, code), '/');
  }

  lemma PieceFirst(code: string, p: Piece, later: string, remaining: string, open: bool)
    requires Sound(p) && (p == Plain('/') ==> !OpensComment(later))
    requires EndsUp(code + Remains(p), later, remaining, open)
    ensures EndsUp(code, Spelling(p) + later, Remains(p) + remaining, open)
  {
    hide Run, Sound, Visible, Unclosed, OpensComment, Remains, Spelling;
    assert code + Remains(p) + remaining == code + (Remains(p) + remaining);
    if p == Plain('/') {
      SlashRuns(code, later);
      SlashSpelled();
    } else {
      PieceRuns(code, p);
      RunParts(Lexer(Code, code), Spelling(p), later);
    }
  }

  lemma {:induction false} PiecesRun(code: string, ps: seq<Piece>, e: Ending)
    requires WellFormed(ps, e)
    ensures EndsUp(code, Spelled(ps, e), Remaining(ps, e), e.OpenLiteral? || e.OpenBlock?)
    decreases |ps|
  {
    hide Sound, EndSound, EndsUp, OpensComment, Spelling, Remains;
    if ps == [] {
      EndRuns(code, e);
    } else {
      PiecesRun(code + Remains(ps[0]), ps[1..], e);
      PieceFirst(code, ps[0], Spelled(ps[1..], e), Remaining(ps[1..], e), e.OpenLiteral? || e.OpenBlock?);
    }
  }

  // ----- the verdict

  /** The three pairs of delimiters. */
  lemma Pairs(open: char, close: char)
    ensures Opens(open).Some? && Closes(close) == Opens(open) <==> [open, close] in {"()", "[]", "{}"}
    ensures Opens(open).Some? <==> open in "([{"
    ensures Closes(close).Some? <==> close in ")]}"
  {
    assert [open, close][0] == open && [open, close][1] == close;
  }

  /** Nothing that could follow balances the delimiters. */
  ghost predicate Hopeless(code: string) { forall t :: !Balanced(code + t) }

  lemma MismatchIffHopeless(code: string)
    ensures Nest(code, []) == None <==> Hopeless(code)
  {
    hide Balanced;
    match Nest(code, [])
    case None =>
      forall t ensures !Balanced(code + t) {
        NestParts(code, t, []);
        if Balanced(code + t) { BalancedNests(code + t, []); }
      }
    case Some(stack) =>
      ClosersClose(code, stack);
      NestsBalanced(code + Closers(stack));
  }

  /** The verdict on an input read as pieces: no continuation can balance the delimiters of what remains, or no string
      and no block comment is open, the delimiters are balanced and no token at the end asks for more. */
  lemma VerdictOfPieces(s: string, ps: seq<Piece>, e: Ending)
    requires WellFormed(ps, e) && Spelled(ps, e) == s
    ensures var code := Remaining(ps, e);
            Complete(s) <==> Hopeless(code) ||
                             (!e.OpenLiteral? && !e.OpenBlock? && Balanced(code) && !AsksForMore(TrimEnd(code)))
  {
    hide Run, Balanced, AsksForMore, Complete, Nest;
    PiecesRun("", ps, e);
    assert "" + Remaining(ps, e) == Remaining(ps, e);
    CompleteIff(s);
    MismatchIffHopeless(Remaining(ps, e));
  }
}
