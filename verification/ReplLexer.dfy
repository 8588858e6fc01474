/** Deciding whether a snippet is complete or the prompt should wait for another line. */
module ReplLexer {
  import opened Results
  import opened Text

  // ----- one character at a time

  datatype Mode = Code | Slash | Quoted | Escaped | LineComment | BlockComment | Star

  /** The mode, and the code so far: strings without their contents, comments gone. */
  datatype Lexer = Lexer(mode: Mode, code: string)

  const START := Lexer(Code, "")

  function CodeStep(code: string, c: char): Lexer
  {
    if c == '/' then Lexer(Slash, code)
    else if c == '"' then Lexer(Quoted, code + ['"'])
    else Lexer(Code, code + [c])
  }

  function Step(l: Lexer, c: char): Lexer
  {
    match l.mode
    case Code => CodeStep(l.code, c)
    case Slash =>
      if c == '/' then Lexer(LineComment, l.code)
      else if c == '*' then Lexer(BlockComment, l.code)
      else CodeStep(l.code + ['/'], c)
    case Quoted =>
      if c == '\\' then Lexer(Escaped, l.code) else if c == '"' then Lexer(Code, l.code + ['"']) else l
    case Escaped => Lexer(Quoted, l.code)
    case LineComment => if c == '\n' then Lexer(Code, l.code + ['\n']) else l
    case BlockComment => if c == '*' then Lexer(Star, l.code) else l
    case Star => if c == '/' then Lexer(Code, l.code) else if c == '*' then l else Lexer(BlockComment, l.code)
  }

  function Run(l: Lexer, s: string): Lexer
    decreases |s|
  {
    if s == [] then l else Run(Step(l, s[0]), s[1..])
  }

  function Visible(l: Lexer): string { if l.mode.Slash? then l.code + ['/'] else l.code }

  predicate Unclosed(l: Lexer) { l.mode.Quoted? || l.mode.Escaped? || l.mode.BlockComment? || l.mode.Star? }

  // ----- delimiters

  datatype Delimiter = Paren | Bracket | Brace

  function Opens(c: char): Option<Delimiter>
  {
    if c == '(' then Some(Paren) else if c == '[' then Some(Bracket) else if c == '{' then Some(Brace) else None
  }

  function Closes(c: char): Option<Delimiter>
  {
    if c == ')' then Some(Paren) else if c == ']' then Some(Bracket) else if c == '}' then Some(Brace) else None
  }

  /** The delimiters still open after the code; `None` once one is closed that is not the innermost open one. */
  function Nest(code: string, stack: seq<Delimiter>): Option<seq<Delimiter>>
    decreases |code|
  {
    if code == [] then Some(stack)
    else if Opens(code[0]).Some? then Nest(code[1..], stack + [Opens(code[0]).value])
    else if Closes(code[0]).Some? then
      if stack != [] && stack[|stack| - 1] == Closes(code[0]).value then Nest(code[1..], stack[..|stack| - 1]) else None
    else Nest(code[1..], stack)
  }

  // ----- the verdict

  const INCOMPLETE: seq<string> := [
    "=>", "::", "&&", "||", "<=", ">=", "==", "!=", "=", ",", ".", "+", "-", "*", "/", "%", "!", ":"]

  predicate EndsWith(s: string, suffix: string) { |s| >= |suffix| && s[|s| - |suffix|..] == suffix }

  /** Nothing at all, or nothing that calls for a continuation. */
  predicate Finished(code: string)
  {
    var trimmed := TrimEnd(code);
    trimmed == [] || !exists i :: 0 <= i < |INCOMPLETE| && EndsWith(trimmed, INCOMPLETE[i])
  }

  function Judge(l: Lexer): bool
  {
    var stack := Nest(Visible(l), []);
    stack == None || (!Unclosed(l) && stack == Some([]) && Finished(Visible(l)))
  }

  predicate Complete(s: string) { Judge(Run(START, s)) }

  /** A delimiter outside strings and comments closes something other than the innermost open one. */
  predicate Mismatch(s: string) { Nest(Visible(Run(START, s)), []) == None }

  // ----- running over parts

  lemma {:induction false} RunParts(l: Lexer, s: string, t: string)
    ensures Run(l, s + t) == Run(Run(l, s), t)
    decreases |s|
  {
    if s == [] {
      assert s + t == t;
    } else {
      assert (s + t)[1..] == s[1..] + t;
      RunParts(Step(l, s[0]), s[1..], t);
    }
  }

  function Behind(before: string, l: Lexer): Lexer { Lexer(l.mode, before + l.code) }

  lemma StepBehind(before: string, l: Lexer, c: char)
    ensures Step(Behind(before, l), c) == Behind(before, Step(l, c))
  {
    assert before + (l.code + [c]) == (before + l.code) + [c];
    assert before + (l.code + ['/']) == (before + l.code) + ['/'];
    assert before + (l.code + ['/'] + [c]) == (before + l.code) + ['/'] + [c];
    assert before + (l.code + ['"']) == (before + l.code) + ['"'];
    assert before + (l.code + ['/'] + ['"']) == (before + l.code) + ['/'] + ['"'];
  }

  /** Code already passed over stays in front and influences nothing. */
  lemma {:induction false} RunBehind(before: string, l: Lexer, s: string)
    ensures Run(Behind(before, l), s) == Behind(before, Run(l, s))
    decreases |s|
  {
    if s != [] {
      StepBehind(before, l, s[0]);
      RunBehind(before, Step(l, s[0]), s[1..]);
    }
  }

  /** What follows only adds to the code. */
  lemma RunExtends(l: Lexer, s: string)
    ensures Run(l, s) == Behind(l.code, Run(Lexer(l.mode, ""), s))
  {
    assert Behind(l.code, Lexer(l.mode, "")) == l by { assert l.code + "" == l.code; }
    RunBehind(l.code, Lexer(l.mode, ""), s);
  }

  lemma {:induction false} NestParts(s: string, t: string, stack: seq<Delimiter>)
    ensures Nest(s + t, stack) == match Nest(s, stack) case None => None case Some(between) => Nest(t, between)
    decreases |s|
  {
    if s == [] {
      assert s + t == t;
    } else {
      assert (s + t)[1..] == s[1..] + t;
      if Opens(s[0]).Some? {
        NestParts(s[1..], t, stack + [Opens(s[0]).value]);
      } else if Closes(s[0]).Some? {
        if stack != [] && stack[|stack| - 1] == Closes(s[0]).value { NestParts(s[1..], t, stack[..|stack| - 1]); }
      } else {
        NestParts(s[1..], t, stack);
      }
    }
  }

  /** A slash that may yet start a comment is no delimiter. */
  lemma NestVisible(l: Lexer)
    ensures Nest(Visible(l), []) == Nest(l.code, [])
  {
    NestParts(l.code, ['/'], []);
    assert forall stack :: Nest(['/'], stack) == Nest([], stack);
  }

  // ----- mismatches are final

  lemma MismatchIsFinal(s: string, t: string)
    requires Mismatch(s)
    ensures Mismatch(s + t) && Complete(s + t)
  {
    var l := Run(START, s);
    NestVisible(l);
    RunParts(START, s, t);
    RunExtends(l, t);
    var later := Run(Lexer(l.mode, ""), t);
    NestParts(l.code, later.code, []);
    NestVisible(Run(l, t));
  }

  // ----- the loop with one character of look-ahead

  lemma RunStep(l: Lexer, s: string, i: nat)
    requires i < |s|
    ensures Run(l, s[i..]) == Run(Step(l, s[i]), s[i + 1..])
  {
    assert s[i..][1..] == s[i + 1..];
  }

  /** A slash that the next character does not turn into a comment is code. */
  lemma LoneSlash(code: string, s: string)
    requires s == [] || (s[0] != '/' && s[0] != '*')
    ensures Judge(Run(Lexer(Slash, code), s)) == Judge(Run(Lexer(Code, code + ['/']), s))
  {
  }

  /** An asterisk that the next character does not turn into the end of the comment is comment. */
  lemma LoneStar(code: string, s: string)
    requires s == [] || s[0] != '/'
    ensures Judge(Run(Lexer(Star, code), s)) == Judge(Run(Lexer(BlockComment, code), s))
  {
    if s == [] {
      NestVisible(Lexer(Star, code));
      NestVisible(Lexer(BlockComment, code));
    }
  }

  lemma Doomed(l: Lexer, s: string)
    requires Nest(l.code, []) == None
    ensures Judge(Run(l, s))
  {
    RunExtends(l, s);
    var later := Run(Lexer(l.mode, ""), s);
    NestParts(l.code, later.code, []);
    NestVisible(Run(l, s));
  }

  function ModeOf(inString: bool, escaped: bool, inLineComment: bool, inBlockComment: bool): Mode
  {
    if inLineComment then LineComment else if inBlockComment then BlockComment
    else if inString then if escaped then Escaped else Quoted
    else Code
  }

  function Peek(s: string, i: nat): Option<char> { if i < |s| then Some(s[i]) else None }

  method IsReplInputComplete(input: string) returns (complete: bool)
    ensures complete == Complete(input)
  {
    hide Run, Judge, Finished;
    var stack: seq<Delimiter> := [];
    var inString, escaped, inLineComment, inBlockComment := false, false, false, false;
    var code := "";
    var i := 0;
    while i < |input|
      invariant i <= |input| && (escaped ==> inString)
      invariant !(inString && inLineComment) && !(inString && inBlockComment) && !(inLineComment && inBlockComment)
      invariant Nest(code, []) == Some(stack)
      invariant Complete(input)
             == Judge(Run(Lexer(ModeOf(inString, escaped, inLineComment, inBlockComment), code), input[i..]))
    {
      var ch := input[i];
      RunStep(Lexer(ModeOf(inString, escaped, inLineComment, inBlockComment), code), input, i);
      i := i + 1;
      if inLineComment {
        if ch == '\n' {
          inLineComment := false;
          NestParts(code, [ch], []);
          code := code + ['\n'];
        }
        continue;
      }
      if inBlockComment {
        if ch == '*' && Peek(input, i) == Some('/') {
          RunStep(Lexer(Star, code), input, i);
          i := i + 1;
          inBlockComment := false;
        } else if ch == '*' {
          LoneStar(code, input[i..]);
        }
        continue;
      }
      if inString {
        if escaped {
          escaped := false;
        } else if ch == '\\' {
          escaped := true;
        } else if ch == '"' {
          inString := false;
          NestParts(code, [ch], []);
          code := code + ['"'];
        }
        continue;
      }
      if ch == '/' {
        if Peek(input, i) == Some('/') {
          RunStep(Lexer(Slash, code), input, i);
          i := i + 1;
          inLineComment := true;
          continue;
        }
        if Peek(input, i) == Some('*') {
          RunStep(Lexer(Slash, code), input, i);
          i := i + 1;
          inBlockComment := true;
          continue;
        }
        LoneSlash(code, input[i..]);
      }
      NestParts(code, [ch], []);
      if ch == '"' {
        inString := true;
      } else if Opens(ch).Some? {
        stack := stack + [Opens(ch).value];
      } else if Closes(ch).Some? {
        if stack == [] || stack[|stack| - 1] != Closes(ch).value {
          Doomed(Lexer(Code, code + [ch]), input[i..]);
          return true;
        }
        stack := stack[..|stack| - 1];
      }
      code := code + [ch];
    }
    EndsJudged(Lexer(ModeOf(inString, escaped, inLineComment, inBlockComment), code), input[i..], stack);
    if inString || inBlockComment || stack != [] { return false; }
    complete := Finished(code);
  }

  lemma EndsJudged(l: Lexer, s: string, stack: seq<Delimiter>)
    requires s == [] && Nest(l.code, []) == Some(stack)
    ensures Judge(Run(l, s)) == (!Unclosed(l) && stack == [] && Finished(Visible(l)))
  {
    NestVisible(l);
  }

  // ----- what does not influence the verdict

  /** Inputs that leave the same mode and the same code behind are never told apart again. */
  lemma SameStateSameVerdict(s: string, t: string, after: string)
    requires Run(START, s) == Run(START, t)
    ensures Complete(s + after) == Complete(t + after)
  {
    RunParts(START, s, after);
    RunParts(START, t, after);
  }

  /** How many backslashes stand right before position `i`. */
  function Backslashes(w: string, i: nat): nat
    requires i <= |w|
  {
    if i > 0 && w[i - 1] == '\\' then 1 + Backslashes(w, i - 1) else 0
  }

  predicate QuotesEscaped(w: string)
  {
    forall i :: 0 <= i < |w| && w[i] == '"' ==> Backslashes(w, i) % 2 == 1
  }

  /** Text that can stand inside a string: every quote is escaped, and what follows the text is not. */
  predicate StringText(w: string) { QuotesEscaped(w) && Backslashes(w, |w|) % 2 == 0 }

  predicate EndsCommentAt(w: string, i: nat) { i + 2 <= |w| && w[i] == '*' && w[i + 1] == '/' }

  /** Text that can stand inside a block comment. */
  predicate CommentText(w: string) { forall i :: 0 <= i < |w| ==> !EndsCommentAt(w, i) }

  /** Text that can stand in a line comment. */
  predicate LineText(w: string) { '\n' !in w }

  lemma BackslashesOfPart(w: string, n: nat, i: nat)
    requires i <= n <= |w|
    ensures Backslashes(w[..n], i) == Backslashes(w, i)
    decreases i
  {
    if i > 0 { BackslashesOfPart(w, n, i - 1); }
  }

  lemma RunLast(l: Lexer, w: string)
    requires w != []
    ensures Run(l, w) == Step(Run(l, w[..|w| - 1]), w[|w| - 1])
  {
    hide Step;
    assert w == w[..|w| - 1] + [w[|w| - 1]];
    RunParts(l, w[..|w| - 1], [w[|w| - 1]]);
    RunOne(Run(l, w[..|w| - 1]), w[|w| - 1]);
  }

  lemma CodeStays(l: Lexer, c: char)
    ensures l.code != "" ==> Step(l, c).code != ""
  {
  }

  /** A string goes on as long as its quotes are escaped, and the next character is escaped behind an odd number of
      backslashes. */
  lemma {:induction false} RunInString(w: string)
    ensures var l := Run(Lexer(Quoted, ""), w);
            if QuotesEscaped(w) then l == Lexer(if Backslashes(w, |w|) % 2 == 1 then Escaped else Quoted, "")
            else l.code != ""
    decreases |w|
  {
    hide Run;
    if w == [] {
      RunNothing(Lexer(Quoted, ""));
    } else {
      var n := |w| - 1;
      var before := w[..n];
      hide QuotesEscaped, Backslashes;
      RunInString(before);
      RunLast(Lexer(Quoted, ""), w);
      QuotesEscapedFrom(w);
      BackslashesOfPart(w, n, n);
      BackslashesAtEnd(w);
      CodeStays(Run(Lexer(Quoted, ""), before), w[n]);
    }
  }

  lemma BackslashesAtEnd(w: string)
    requires w != []
    ensures Backslashes(w, |w|) == if w[|w| - 1] == '\\' then 1 + Backslashes(w, |w| - 1) else 0
  {
  }

  lemma QuotesEscapedFrom(w: string)
    requires w != []
    ensures var n := |w| - 1;
            QuotesEscaped(w) <==> QuotesEscaped(w[..n]) && (w[n] == '"' ==> Backslashes(w, n) % 2 == 1)
  {
    var n := |w| - 1;
    forall i | 0 <= i <= n ensures Backslashes(w[..n], i) == Backslashes(w, i) { BackslashesOfPart(w, n, i); }
    hide Backslashes;
  }

  /** The lexer stays inside a string exactly over such texts. */
  lemma StringTextIff(w: string)
    ensures StringText(w) <==> Run(Lexer(Quoted, ""), w) == Lexer(Quoted, "")
  {
    hide Run;
    RunInString(w);
  }

  predicate InComment(l: Lexer) { l.code == "" && (l.mode.BlockComment? || l.mode.Star?) }

  lemma CommentTextFrom(w: string)
    requires w != []
    ensures CommentText(w) <==> CommentText(w[..|w| - 1]) && !(|w| >= 2 && EndsCommentAt(w, |w| - 2))
  {
    var n := |w| - 1;
    forall i: nat | i + 1 < n ensures EndsCommentAt(w[..n], i) == EndsCommentAt(w, i) {
    }
  }

  lemma {:induction false} RunInComment(w: string)
    ensures var l := Run(Lexer(BlockComment, ""), w);
            CommentText(w) ==> InComment(l) && (l.mode.Star? <==> w != [] && w[|w| - 1] == '*')
    decreases |w|
  {
    hide Run, CommentText;
    if w == [] {
      RunNothing(Lexer(BlockComment, ""));
    } else {
      CommentTextFrom(w);
      RunInComment(w[..|w| - 1]);
      RunLast(Lexer(BlockComment, ""), w);
    }
  }

  /** The lexer is inside a block comment all the way exactly over such texts. */
  lemma {:induction false} CommentTextIff(w: string)
    ensures CommentText(w) <==> forall n :: 0 <= n <= |w| ==> InComment(Run(Lexer(BlockComment, ""), w[..n]))
    decreases |w|
  {
    hide Run, CommentText, InComment, Step;
    assert w[..|w|] == w;
    if w == [] {
      RunInComment(w);
      EmptyIsComment(w);
    } else {
      var before := w[..|w| - 1];
      CommentTextIff(before);
      CommentTextFrom(w);
      forall n | 0 <= n <= |before| ensures before[..n] == w[..n] {
      }
      assert CommentText(before) <==>
             forall n :: 0 <= n <= |before| ==> InComment(Run(Lexer(BlockComment, ""), w[..n]));
      if CommentText(before) {
        RunInComment(before);
        RunLast(Lexer(BlockComment, ""), w);
        if CommentText(w) { RunInComment(w); } else { CommentEnds(Run(Lexer(BlockComment, ""), before)); }
      }
    }
  }

  lemma EmptyIsComment(w: string)
    ensures w == [] ==> CommentText(w)
  {
  }

  lemma CommentEnds(l: Lexer)
    requires l.mode.Star?
    ensures !InComment(Step(l, '/'))
  {
  }

  /** The lexer stays in a line comment exactly over texts without a line end. */
  lemma {:induction false} LineTextIff(w: string)
    ensures LineText(w) <==> Run(Lexer(LineComment, ""), w) == Lexer(LineComment, "")
    ensures !LineText(w) ==> Run(Lexer(LineComment, ""), w).code != ""
    decreases |w|
  {
    hide Run;
    if w == [] {
      RunNothing(Lexer(LineComment, ""));
    } else {
      var before, last := w[..|w| - 1], w[|w| - 1];
      assert w == before + [last];
      LineTextIff(before);
      RunLast(Lexer(LineComment, ""), w);
      CodeStays(Run(Lexer(LineComment, ""), before), last);
    }
  }

  lemma RunLine(l: Lexer, w: string)
    requires l.mode.Code? && LineText(w)
    ensures Run(l, ['/', '/'] + w + ['\n']) == Run(l, ['\n'])
  {
    LineTextIff(w);
    var open := Lexer(LineComment, l.code);
    RunParts(l, ['/', '/'] + w, ['\n']);
    RunParts(l, ['/', '/'], w);
    RunTwo(l, '/', '/');
    RunExtends(open, w);
    assert l.code + "" == l.code;
    RunOne(open, '\n');
    RunOne(l, '\n');
  }

  lemma {:induction false} RunQuoted(l: Lexer, w: string)
    requires (l.mode.Code? || l.mode.Slash?) && StringText(w)
    ensures Run(l, ['"'] + w + ['"']) == Lexer(Code, Visible(l) + ['"'] + ['"'])
  {
    StringTextIff(w);
    var open := Lexer(Quoted, Visible(l) + ['"']);
    RunParts(l, ['"'] + w, ['"']);
    RunParts(l, ['"'], w);
    assert Run(l, ['"']) == open by { assert ['"'][1..] == []; }
    RunExtends(open, w);
    assert open.code + "" == open.code;
    assert Run(open, ['"']) == Lexer(Code, open.code + ['"']) by { assert ['"'][1..] == []; }
  }

  lemma RunComment(l: Lexer, w: string)
    requires l.mode.Code? && CommentText(w)
    ensures Run(l, ['/', '*'] + w + ['*', '/']) == l
  {
    RunInComment(w);
    var open := Lexer(BlockComment, l.code);
    RunParts(l, ['/', '*'] + w, ['*', '/']);
    RunParts(l, ['/', '*'], w);
    RunTwo(l, '/', '*');
    RunExtends(open, w);
    assert l.code + "" == l.code;
    RunTwo(Run(open, w), '*', '/');
  }

  lemma RunOne(l: Lexer, c: char)
    ensures Run(l, [c]) == Step(l, c)
  {
    assert [c][1..] == [];
  }

  lemma RunTwo(l: Lexer, a: char, b: char)
    ensures Run(l, [a, b]) == Step(Step(l, a), b)
  {
    assert [a, b] == [a] + [b];
    RunParts(l, [a], [b]);
    RunOne(l, a);
    RunOne(Step(l, a), b);
  }

  /** What a string holds never matters, a block comment may hold anything or not be there at all, and a line comment
      is its line end. */
  lemma HiddenTextIrrelevant(before: string, w: string, w': string, after: string)
    ensures Run(START, before).mode in {Code, Slash} && StringText(w) && StringText(w') ==>
              Complete(before + (['"'] + w + ['"']) + after) == Complete(before + (['"'] + w' + ['"']) + after)
    ensures Run(START, before).mode == Code && CommentText(w) ==>
              Complete(before + (['/', '*'] + w + ['*', '/']) + after) == Complete(before + after)
    ensures Run(START, before).mode == Code && LineText(w) ==>
              Complete(before + (['/', '/'] + w + ['\n']) + after) == Complete(before + ['\n'] + after)
  {
    hide Run, Complete, StringText, CommentText, LineText;
    var l := Run(START, before);
    if l.mode in {Code, Slash} && StringText(w) && StringText(w') {
      RunQuoted(l, w);
      RunQuoted(l, w');
      RunParts(START, before, ['"'] + w + ['"']);
      RunParts(START, before, ['"'] + w' + ['"']);
      SameStateSameVerdict(before + (['"'] + w + ['"']), before + (['"'] + w' + ['"']), after);
    }
    if l.mode == Code && CommentText(w) {
      RunComment(l, w);
      RunParts(START, before, ['/', '*'] + w + ['*', '/']);
      SameStateSameVerdict(before + (['/', '*'] + w + ['*', '/']), before, after);
    }
    if l.mode == Code && LineText(w) {
      RunLine(l, w);
      RunParts(START, before, ['/', '/'] + w + ['\n']);
      RunParts(START, before, ['\n']);
      SameStateSameVerdict(before + (['/', '/'] + w + ['\n']), before + ['\n'], after);
    }
  }

  // ----- an input that is not a mismatch can be completed

  /** Gets the lexer back to plain code. */
  function Terminator(mode: Mode): string
  {
    match mode
    case Code => ""
    case Slash => [' ']
    case Quoted => ['"']
    case Escaped => ['"', '"']
    case LineComment => ['\n']
    case BlockComment => ['*', '/']
    case Star => ['/']
  }

  function Closer(d: Delimiter): char { match d case Paren => ')' case Bracket => ']' case Brace => '}' }

  function Closers(stack: seq<Delimiter>): string
  {
    if stack == [] then "" else [Closer(stack[|stack| - 1])] + Closers(stack[..|stack| - 1])
  }

  lemma Terminates(l: Lexer)
    requires Nest(Visible(l), []).Some?
    ensures var l' := Run(l, Terminator(l.mode));
            l'.mode == Code && Nest(l'.code, []) == Nest(Visible(l), [])
  {
    hide Run, Nest, Opens, Closes;
    NestVisible(l);
    match l.mode
    case Code => RunNothing(l);
    case Slash =>
      RunOne(l, ' ');
      NestPlain(l.code + ['/'], ' ');
    case Quoted =>
      RunOne(l, '"');
      NestPlain(l.code, '"');
    case Escaped =>
      RunTwo(l, '"', '"');
      NestPlain(l.code, '"');
    case LineComment =>
      RunOne(l, '\n');
      NestPlain(l.code, '\n');
    case BlockComment =>
      RunTwo(l, '*', '/');
    case Star =>
      RunOne(l, '/');
  }

  lemma NestPlain(code: string, c: char)
    requires c in {' ', '"', '\n'}
    ensures Nest(code + [c], []) == Nest(code, [])
  {
    NestParts(code, [c], []);
    assert [c][1..] == [];
  }

  lemma {:induction false} ClosersClose(code: string, stack: seq<Delimiter>)
    requires Nest(code, []) == Some(stack)
    ensures Run(Lexer(Code, code), Closers(stack)) == Lexer(Code, code + Closers(stack))
    ensures Nest(code + Closers(stack), []) == Some([])
    decreases |stack|
  {
    hide Run;
    if stack == [] {
      assert code + "" == code;
      RunNothing(Lexer(Code, code));
    } else {
      var c, rest := Closer(stack[|stack| - 1]), Closers(stack[..|stack| - 1]);
      ClosePops(code, stack);
      ClosersClose(code + [c], stack[..|stack| - 1]);
      assert code + ([c] + rest) == code + [c] + rest;
      RunOne(Lexer(Code, code), c);
      RunParts(Lexer(Code, code), [c], rest);
    }
  }

  lemma RunNothing(l: Lexer)
    ensures Run(l, "") == l
  {
  }

  lemma ClosePops(code: string, stack: seq<Delimiter>)
    requires Nest(code, []) == Some(stack) && stack != []
    ensures Nest(code + [Closer(stack[|stack| - 1])], []) == Some(stack[..|stack| - 1])
  {
    var c := Closer(stack[|stack| - 1]);
    NestParts(code, [c], []);
    assert [c][1..] == [];
  }

  lemma SameLast(s: string, suffix: string)
    ensures EndsWith(s, suffix) && suffix != [] ==> s[|s| - 1] == suffix[|suffix| - 1]
  {
    if EndsWith(s, suffix) && suffix != [] { assert s[|s| - |suffix|..][|suffix| - 1] == s[|s| - 1]; }
  }

  lemma NoTokenEndsInDigit(i: nat)
    requires i < |INCOMPLETE|
    ensures INCOMPLETE[i] != [] && INCOMPLETE[i][|INCOMPLETE[i]| - 1] != '0'
  {
  }

  lemma DigitFinishes(code: string)
    ensures Finished(code + ['0'])
  {
    hide INCOMPLETE;
    var s := code + ['0'];
    assert TrimEnd(s) == s;
    forall i | 0 <= i < |INCOMPLETE| ensures !EndsWith(s, INCOMPLETE[i]) {
      NoTokenEndsInDigit(i);
      SameLast(s, INCOMPLETE[i]);
    }
  }

  function Completion(s: string): string
    requires !Mismatch(s)
  {
    var l := Run(START, s);
    Terminator(l.mode) + Closers(Nest(Visible(l), []).value) + ['0']
  }

  /** Exactly the inputs without a mismatch have a continuation that completes them without one; so waiting for more
      is never in vain. */
  lemma CompletableIffNoMismatch(s: string)
    ensures !Mismatch(s) ==> Complete(s + Completion(s)) && !Mismatch(s + Completion(s))
    ensures Mismatch(s) ==> forall t :: Mismatch(s + t)
    ensures !Complete(s) ==> !Mismatch(s)
  {
    hide Run, Finished;
    if !Mismatch(s) {
      var l := Run(START, s);
      var stack := Nest(Visible(l), []).value;
      Terminates(l);
      var l' := Run(l, Terminator(l.mode));
      ClosersClose(l'.code, stack);
      var closed := Lexer(Code, l'.code + Closers(stack));
      RunOne(closed, '0');
      NestParts(closed.code, ['0'], []);
      DigitFinishes(closed.code);
      RunParts(l', Closers(stack), ['0']);
      RunParts(l, Terminator(l.mode), Closers(stack) + ['0']);
      RunParts(START, s, Terminator(l.mode) + (Closers(stack) + ['0']));
      assert Completion(s) == Terminator(l.mode) + (Closers(stack) + ['0']);
    } else {
      forall t ensures Mismatch(s + t) { MismatchIsFinal(s, t); }
    }
  }

  // ----- nesting is balance

  /** A balanced word of delimiters, other characters anywhere between. */
  ghost predicate Balanced(w: string)
    decreases |w|
  {
    || w == []
    || (Opens(w[0]) == None && Closes(w[0]) == None && Balanced(w[1..]))
    || (Opens(w[0]).Some? &&
        exists k :: 0 < k < |w| && Closes(w[k]) == Opens(w[0]) && Balanced(w[1..k]) && Balanced(w[k + 1..]))
  }

  lemma {:induction false} BalancedNests(w: string, stack: seq<Delimiter>)
    requires Balanced(w)
    ensures Nest(w, stack) == Some(stack)
    decreases |w|
  {
    if w != [] {
      if Opens(w[0]).Some? {
        var k :| 0 < k < |w| && Closes(w[k]) == Opens(w[0]) && Balanced(w[1..k]) && Balanced(w[k + 1..]);
        BalancedNests(w[1..k], stack + [Opens(w[0]).value]);
        BalancedNests(w[k + 1..], stack);
        PairNests(w, k, stack);
      } else {
        BalancedNests(w[1..], stack);
      }
    }
  }

  lemma PairNests(w: string, k: nat, stack: seq<Delimiter>)
    requires 0 < k < |w| && Opens(w[0]).Some? && Closes(w[k]) == Opens(w[0])
    requires Nest(w[1..k], stack + [Opens(w[0]).value]) == Some(stack + [Opens(w[0]).value])
    ensures Nest(w, stack) == Nest(w[k + 1..], stack)
  {
    var stack' := stack + [Opens(w[0]).value];
    assert w[1..] == w[1..k] + w[k..];
    NestParts(w[1..k], w[k..], stack');
    assert w[k..][1..] == w[k + 1..] && stack'[..|stack|] == stack;
  }

  lemma BalancedPair(w: string, k: nat)
    requires 0 < k < |w| && Opens(w[0]).Some? && Closes(w[k]) == Opens(w[0])
    requires Balanced(w[1..k]) && Balanced(w[k + 1..])
    ensures Balanced(w)
  {
  }

  lemma BalancedSkip(w: string)
    requires w != [] && Opens(w[0]) == None && Closes(w[0]) == None && Balanced(w[1..])
    ensures Balanced(w)
  {
  }

  /** The innermost open delimiter is closed somewhere, with a balanced word in between. */
  lemma {:induction false} Closing(w: string, stack: seq<Delimiter>, d: Delimiter) returns (k: nat)
    requires Nest(w, stack + [d]).Some? && |Nest(w, stack + [d]).value| <= |stack|
    ensures k < |w| && Closes(w[k]) == Some(d) && Balanced(w[..k]) && Nest(w[k + 1..], stack) == Nest(w, stack + [d])
    decreases |w|
  {
    var top := stack + [d];
    if Closes(w[0]).Some? {
      k := 0;
      assert top[..|stack|] == stack && w[..0] == [];
    } else if Opens(w[0]).Some? {
      k := ClosingPair(w, stack, d);
    } else {
      var later := Closing(w[1..], stack, d);
      k := later + 1;
      assert w[1..][later + 1..] == w[k + 1..] && w[..k][1..] == w[1..][..later];
      BalancedSkip(w[..k]);
    }
  }

  /** Where the two inner parts of a pair lie in the word that ends before the closing delimiter. */
  lemma PairSlices(w: string, inner: nat, outer: nat)
    requires inner + 2 + outer <= |w|
    ensures w[..inner + 2 + outer][1..inner + 1] == w[1..][..inner]
    ensures w[..inner + 2 + outer][inner + 2..] == w[1..][inner + 1..][..outer]
  {
  }

  lemma {:induction false} ClosingPair(w: string, stack: seq<Delimiter>, d: Delimiter) returns (k: nat)
    requires w != [] && Opens(w[0]).Some?
    requires Nest(w, stack + [d]).Some? && |Nest(w, stack + [d]).value| <= |stack|
    ensures k < |w| && Closes(w[k]) == Some(d) && Balanced(w[..k]) && Nest(w[k + 1..], stack) == Nest(w, stack + [d])
    decreases |w|, 0
  {
    hide Balanced;
    var inner := Closing(w[1..], stack + [d], Opens(w[0]).value);
    var rest := w[1..][inner + 1..];
    assert rest == w[inner + 2..];
    var outer := Closing(rest, stack, d);
    k := inner + 2 + outer;
    assert rest[outer + 1..] == w[k + 1..];
    PairSlices(w, inner, outer);
    BalancedPair(w[..k], inner + 1);
  }

  lemma {:induction false} NestsBalanced(w: string)
    requires Nest(w, []) == Some([])
    ensures Balanced(w)
    decreases |w|
  {
    if w != [] {
      if Opens(w[0]).Some? {
        var d := Opens(w[0]).value;
        assert [] + [d] == [d];
        var k := Closing(w[1..], [], d);
        assert w[1..][k + 1..] == w[k + 2..] && w[1..][..k] == w[1..k + 1];
        NestsBalanced(w[k + 2..]);
      } else {
        NestsBalanced(w[1..]);
      }
    }
  }

  /** No mismatch and nothing open at the end: exactly the balanced delimiters. */
  lemma NothingOpenIffBalanced(s: string)
    ensures Nest(Visible(Run(START, s)), []) == Some([]) <==> Balanced(Visible(Run(START, s)))
  {
    var code := Visible(Run(START, s));
    if Nest(code, []) == Some([]) { NestsBalanced(code); }
    if Balanced(code) { BalancedNests(code, []); }
  }

  // ----- what calls for a continuation

  /** Thirteen of the eighteen tokens decide; the other five end in one of them. */
  predicate AsksForMore(t: string)
  {
    t != [] &&
    var c := t[|t| - 1];
    c in {'=', ',', '.', '+', '-', '*', '/', '%', '!', ':'} ||
    EndsWith(t, "=>") || EndsWith(t, "&&") || EndsWith(t, "||")
  }

  lemma EndsWithOne(t: string, c: char)
    ensures EndsWith(t, [c]) <==> t != [] && t[|t| - 1] == c
  {
    if t != [] { assert t[|t| - 1..] == [t[|t| - 1]]; }
  }

  lemma EndsWithTwo(t: string, a: char, b: char)
    ensures EndsWith(t, [a, b]) <==> |t| >= 2 && t[|t| - 2] == a && t[|t| - 1] == b
  {
    if |t| >= 2 { assert t[|t| - 2..] == [t[|t| - 2], t[|t| - 1]]; }
  }

  lemma FinishedIff(code: string)
    ensures Finished(code) <==> !AsksForMore(TrimEnd(code))
  {
    hide TrimEnd, EndsWith;
    var t := TrimEnd(code);
    EndsWithTwo(t, '=', '>'); EndsWithTwo(t, ':', ':'); EndsWithTwo(t, '&', '&'); EndsWithTwo(t, '|', '|');
    EndsWithTwo(t, '<', '='); EndsWithTwo(t, '>', '='); EndsWithTwo(t, '=', '='); EndsWithTwo(t, '!', '=');
    EndsWithOne(t, '='); EndsWithOne(t, ','); EndsWithOne(t, '.'); EndsWithOne(t, '+'); EndsWithOne(t, '-');
    EndsWithOne(t, '*'); EndsWithOne(t, '/'); EndsWithOne(t, '%'); EndsWithOne(t, '!'); EndsWithOne(t, ':');
    if AsksForMore(t) {
      assert t[|t| - 1] == '=' ==> EndsWith(t, INCOMPLETE[8]);
      assert t[|t| - 1] == ',' ==> EndsWith(t, INCOMPLETE[9]);
      assert t[|t| - 1] == '.' ==> EndsWith(t, INCOMPLETE[10]);
      assert t[|t| - 1] == '+' ==> EndsWith(t, INCOMPLETE[11]);
      assert t[|t| - 1] == '-' ==> EndsWith(t, INCOMPLETE[12]);
      assert t[|t| - 1] == '*' ==> EndsWith(t, INCOMPLETE[13]);
      assert t[|t| - 1] == '/' ==> EndsWith(t, INCOMPLETE[14]);
      assert t[|t| - 1] == '%' ==> EndsWith(t, INCOMPLETE[15]);
      assert t[|t| - 1] == '!' ==> EndsWith(t, INCOMPLETE[16]);
      assert t[|t| - 1] == ':' ==> EndsWith(t, INCOMPLETE[17]);
      assert EndsWith(t, "=>") ==> EndsWith(t, INCOMPLETE[0]);
      assert EndsWith(t, "&&") ==> EndsWith(t, INCOMPLETE[2]);
      assert EndsWith(t, "||") ==> EndsWith(t, INCOMPLETE[3]);
    }
  }

  /** The verdict without stack or loop: a mismatch, or everything closed, balanced and not asking for more. */
  lemma CompleteIff(s: string)
    ensures var l := Run(START, s);
            Complete(s) <==> Mismatch(s) ||
                             (!Unclosed(l) && Balanced(Visible(l)) && !AsksForMore(TrimEnd(Visible(l))))
  {
    hide Run, Balanced, AsksForMore, Finished, Visible, Nest;
    var l := Run(START, s);
    NothingOpenIffBalanced(s);
    FinishedIff(Visible(l));
  }
}
