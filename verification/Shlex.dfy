/** The shell lexer of `cowrie/shell/shlex.py` in posix mode, with `split` and `quote`. */
module Shlex {
  import opened Options

  /** The lexer state: the source's None, ' ', a quote character, the escape character, 'a' and 'c'. */
  datatype State = End | Space | Quoted(quote: char) | Escape | Word | Punct

  /** The strings of characters of the original, which it only searches, as sets. */
  datatype Config = Config(commenters: set<char>, punctuation: set<char>, wordchars: set<char>, whitespaceSplit: bool)

  const LETTERS: set<char> :=
    set c: char | 'a' <= c <= 'z' || 'A' <= c <= 'Z' || '0' <= c <= '9' || c == '_'

  predicate IsWhite(c: char) { c in " \t\r\n" }
  predicate IsQuote(c: char) { c in "'\"" }
  const ESCAPE: char := '\\'
  const ESCAPED_QUOTE: char := '"'

  /** Everything one call of `read_token` works on.  `chars` is the stack of pushed-back characters,
      `tokens` that of pushed-back tokens; `quoted` and `resume` are its two local variables. */
  datatype Lexer = Lexer(rest: string, chars: string, tokens: seq<string>,
                         state: State, token: string, quoted: bool, resume: State)

  datatype LexError = NoClosingQuotation | NoEscapedCharacter

  /** The outcome of one turn of the loop. */
  datatype Move = Continue(lexer: Lexer) | Emit(lexer: Lexer) | Raise(error: LexError)

  function AfterLine(rest: string): string {
    if |rest| == 0 then "" else if rest[0] == '\n' then rest[1..] else AfterLine(rest[1..])
  }

  /** "if self.token or (self.posix and quoted): break, else continue". */
  function EmitIfAny(s: Lexer): Move {
    if s.token != "" || s.quoted then Emit(s) else Continue(s)
  }

  function AtEnd(s: Lexer): Move {
    match s.state
    case Quoted(_) => Raise(NoClosingQuotation)
    case Escape => Raise(NoEscapedCharacter)
    case _ => Emit(s.(state := End, token := if s.state == End then "" else s.token))
  }

  function InSpace(cfg: Config, s: Lexer, c: char): Move {
    if IsWhite(c) then EmitIfAny(s)
    else if c in cfg.commenters then Continue(s.(rest := AfterLine(s.rest)))
    else if c == ESCAPE then Continue(s.(resume := Word, state := Escape))
    else if c in cfg.wordchars then Continue(s.(token := [c], state := Word))
    else if c in cfg.punctuation then Continue(s.(token := [c], state := Punct))
    else if IsQuote(c) then Continue(s.(state := Quoted(c)))
    else if cfg.whitespaceSplit then Continue(s.(token := [c], state := Word))
    else Emit(s.(token := [c]))
  }

  function InQuote(cfg: Config, s: Lexer, c: char): Move
    requires s.state.Quoted?
  {
    var s := s.(quoted := true);
    if c == s.state.quote then Continue(s.(state := Word))
    else if c == ESCAPE && s.state.quote == ESCAPED_QUOTE then Continue(s.(resume := s.state, state := Escape))
    else Continue(s.(token := s.token + [c]))
  }

  function InEscape(cfg: Config, s: Lexer, c: char): Move {
    var keep := s.resume.Quoted? && c != ESCAPE && c != s.resume.quote;
    Continue(s.(token := s.token + (if keep then [ESCAPE] else "") + [c], state := s.resume))
  }

  function InWord(cfg: Config, s: Lexer, c: char): Move {
    if IsWhite(c) then EmitIfAny(s.(state := Space))
    else if c in cfg.commenters then EmitIfAny(s.(rest := AfterLine(s.rest), state := Space))
    else if IsQuote(c) then Continue(s.(state := Quoted(c)))
    else if c == ESCAPE then Continue(s.(resume := Word, state := Escape))
    else if s.state == Punct then
      if c in cfg.punctuation then Continue(s.(token := s.token + [c]))
      else Emit(s.(chars := s.chars + [c], state := Space))
    else if c in cfg.wordchars || cfg.whitespaceSplit then Continue(s.(token := s.token + [c]))
    else if cfg.punctuation != {} then EmitIfAny(s.(chars := s.chars + [c], state := Space))
    else EmitIfAny(s.(tokens := [[c]] + s.tokens, state := Space))
  }

  /** One turn on the character `c`, already taken from the input. */
  function OnChar(cfg: Config, s: Lexer, c: char): Move {
    match s.state
    case End => Emit(s.(token := ""))
    case Space => InSpace(cfg, s, c)
    case Quoted(_) => InQuote(cfg, s, c)
    case Escape => InEscape(cfg, s, c)
    case _ => InWord(cfg, s, c)
  }

  /** One turn: a pushed-back character comes first, and only punctuation mode looks for one. */
  function Turn(cfg: Config, s: Lexer): Move {
    if cfg.punctuation != {} && |s.chars| > 0 then
      OnChar(cfg, s.(chars := s.chars[..|s.chars| - 1]), s.chars[|s.chars| - 1])
    else if |s.rest| > 0 then OnChar(cfg, s.(rest := s.rest[1..]), s.rest[0])
    else AtEnd(s)
  }

  function Weight(s: Lexer): nat {
    2 * (|s.rest| + |s.chars|) + (if s.state == Word || s.state == Punct then 1 else 0)
  }

  lemma AfterLineShorter(rest: string)
    ensures |AfterLine(rest)| <= |rest|
  {
  }

  predicate Lighter(m: Move, s: Lexer) {
    m.Continue? ==>
      |m.lexer.rest| + |m.lexer.chars| < |s.rest| + |s.chars| + 1 && Weight(m.lexer) < Weight(s) + 2
  }

  lemma InSpaceLighter(cfg: Config, s: Lexer, c: char)
    requires s.state == Space
    ensures Lighter(InSpace(cfg, s, c), s)
  {
    AfterLineShorter(s.rest);
  }

  lemma InWordLighter(cfg: Config, s: Lexer, c: char)
    requires s.state == Word || s.state == Punct
    ensures var m := InWord(cfg, s, c);
      m.Continue? ==> |m.lexer.rest| + |m.lexer.chars| <= |s.rest| + |s.chars| + 1 && Weight(m.lexer) < Weight(s) + 2
  {
    AfterLineShorter(s.rest);
  }

  /** Every turn that goes on makes the input lighter. */
  lemma TurnLighter(cfg: Config, s: Lexer)
    ensures Turn(cfg, s).Continue? ==>
      var t := Turn(cfg, s).lexer;
      Weight(t) < Weight(s) && |t.rest| + |t.chars| <= |s.rest| + |s.chars|
  {
    hide InSpace, InWord;
    if cfg.punctuation != {} && |s.chars| > 0 {
      var s', c := s.(chars := s.chars[..|s.chars| - 1]), s.chars[|s.chars| - 1];
      if s.state == Space { InSpaceLighter(cfg, s', c); }
      if s.state == Word || s.state == Punct { InWordLighter(cfg, s', c); }
    } else if |s.rest| > 0 {
      var s', c := s.(rest := s.rest[1..]), s.rest[0];
      if s.state == Space { InSpaceLighter(cfg, s', c); }
      if s.state == Word || s.state == Punct { InWordLighter(cfg, s', c); }
    }
  }

  datatype Outcome = Token(token: Option<string>, lexer: Lexer) | Failed(error: LexError, lexer: Lexer)

  /** What `read_token` returns and leaves behind; it raises at the end of the input only. */
  function Read(cfg: Config, s: Lexer): Outcome
    decreases Weight(s)
  {
    TurnLighter(cfg, s);
    var m := Turn(cfg, s);
    if m.Continue? then Read(cfg, m.lexer)
    else if m.Raise? then Failed(m.error, s)
    else Token(if m.lexer.token == "" && !m.lexer.quoted then None else Some(m.lexer.token), m.lexer.(token := ""))
  }

  // Progress --------------------------------------------------------------------------------------

  /** Characters and tokens still to be handed out. */
  function Remaining(s: Lexer): nat {
    |s.rest| + |s.chars| + |s.tokens|
  }

  /** What the object holds between two calls. */
  predicate Fresh(s: Lexer) {
    (s.state == Space || s.state == End) && s.token == "" && !s.quoted && s.resume == Space
  }

  /** The punctuation state is entered in punctuation mode only. */
  predicate Sane(cfg: Config, s: Lexer) {
    cfg.punctuation == {} ==> s.state != Punct && s.resume != Punct
  }

  /** A turn on a character never adds to what remains, and removes one in the space state. */
  predicate Bounded(cfg: Config, m: Move, s: Lexer) {
    !m.Raise? ==>
      && Remaining(m.lexer) <= Remaining(s) + 1
      && (s.state == Space ==> Remaining(m.lexer) <= Remaining(s))
      && (|s.chars| == 0 ==> |m.lexer.chars| <= 1)
      && (cfg.punctuation == {} && Sane(cfg, s) ==> m.lexer.chars == s.chars && Sane(cfg, m.lexer))
      && (m.Emit? ==> m.lexer.state == Space || m.lexer.state == End)
  }

  lemma OnCharBounded(cfg: Config, s: Lexer, c: char)
    ensures Bounded(cfg, OnChar(cfg, s, c), s)
  {
    AfterLineShorter(s.rest);
    match s.state
    case Space => InSpaceBounded(cfg, s, c);
    case Word => InWordBounded(cfg, s, c);
    case Punct => InWordBounded(cfg, s, c);
    case _ =>
  }

  lemma InSpaceBounded(cfg: Config, s: Lexer, c: char)
    requires s.state == Space
    ensures Bounded(cfg, InSpace(cfg, s, c), s)
  {
    AfterLineShorter(s.rest);
  }

  lemma InWordBounded(cfg: Config, s: Lexer, c: char)
    requires s.state == Word || s.state == Punct
    ensures Bounded(cfg, InWord(cfg, s, c), s)
  {
    AfterLineShorter(s.rest);
  }

  predicate Spent(s: Lexer, t: Lexer, strictly: bool) {
    && Remaining(t) <= Remaining(s) && (strictly ==> Remaining(t) < Remaining(s))
    && (|s.chars| <= 1 ==> |t.chars| <= 1)
  }

  lemma TurnBounded(cfg: Config, s: Lexer)
    requires Sane(cfg, s)
    ensures var m := Turn(cfg, s);
      !m.Raise? ==>
        && Spent(s, m.lexer, s.state == Space && (|s.rest| > 0 || (|s.chars| > 0 && cfg.punctuation != {})))
        && (m.Emit? ==> m.lexer.state == Space || m.lexer.state == End)
        && Sane(cfg, m.lexer)
  {
    hide OnChar;
    if cfg.punctuation != {} && |s.chars| > 0 {
      OnCharBounded(cfg, s.(chars := s.chars[..|s.chars| - 1]), s.chars[|s.chars| - 1]);
    } else if |s.rest| > 0 {
      OnCharBounded(cfg, s.(rest := s.rest[1..]), s.rest[0]);
    }
  }

  /** One call: what remains never grows, at most one character is pushed back, the state and token
      are reset, and a call on a fresh lexer that returns a token leaves strictly less. */
  lemma {:induction false} ReadProgress(cfg: Config, s: Lexer)
    requires Sane(cfg, s)
    ensures Spent(s, Read(cfg, s).lexer, false) && Sane(cfg, Read(cfg, s).lexer)
    ensures Read(cfg, s).Token? ==>
      var Token(token, t) := Read(cfg, s);
      && Spent(s, t, Fresh(s) && token.Some?)
      && (t.state == Space || t.state == End) && t.token == ""
    decreases Weight(s)
  {
    hide Turn;
    TurnLighter(cfg, s);
    TurnBounded(cfg, s);
    var m := Turn(cfg, s);
    if Fresh(s) && (s.state == End || (|s.rest| == 0 && (|s.chars| == 0 || cfg.punctuation == {}))) {
      FreshEnds(cfg, s);
    } else if m.Continue? {
      ReadProgress(cfg, m.lexer);
    }
  }

  /** A fresh lexer at the end of its input has no token left. */
  lemma FreshEnds(cfg: Config, s: Lexer)
    requires Fresh(s) && (s.state == End || (|s.rest| == 0 && (|s.chars| == 0 || cfg.punctuation == {})))
    ensures Turn(cfg, s).Emit? && Turn(cfg, s).lexer.token == "" && !Turn(cfg, s).lexer.quoted
  {
  }

  /** The lexer as the next call finds it. */
  function Next(t: Lexer): Lexer {
    t.(quoted := false, resume := Space)
  }

  datatype Tokens = Tokens(list: seq<string>) | Broken(error: LexError)

  function Prepend(token: string, more: Tokens): Tokens {
    if more.Broken? then more else Tokens([token] + more.list)
  }

  /** `list(lex)`: calls of `get_token` until it answers None.  Also from a lexer that a call which
      raised has left inside quotes or behind an escape. */
  function AllTokens(cfg: Config, s: Lexer): Tokens
    requires Sane(cfg, s)
    decreases if Fresh(s) then 0 else 1, Remaining(s)
  {
    if |s.tokens| > 0 then Prepend(s.tokens[0], AllTokens(cfg, s.(tokens := s.tokens[1..])))
    else
      ReadProgress(cfg, s);
      var o := Read(cfg, s);
      if o.Failed? then Broken(o.error)
      else if o.token == None then Tokens([])
      else Prepend(o.token.value, AllTokens(cfg, Next(o.lexer)))
  }

  // split and quote -------------------------------------------------------------------------------

  function Start(text: string): Lexer {
    Lexer(text, "", [], Space, "", false, Space)
  }

  function SplitConfig(comments: bool): Config {
    Config(if comments then {'#'} else {}, {}, LETTERS, true)
  }

  /** What the proofs need of a `split` configuration. */
  predicate Splitting(cfg: Config) {
    cfg.punctuation == {} && cfg.whitespaceSplit && forall c | c in cfg.commenters :: c == '#'
  }

  /** The characters that `quote` leaves alone: `\w` and a few more.  Beyond ASCII, `word` says what
      the regular expression's `\w` takes. */
  predicate Safe(word: char -> bool, c: char) {
    || c in LETTERS
    || c == '@' || c == '%' || c == '+' || c == '=' || c == ':' || c == ',' || c == '.' || c == '/' || c == '-'
    || (c >= '\U{80}' && word(c))
  }

  /** `s.replace("'", "'\"'\"'")`. */
  function QuoteQuotes(s: string): string {
    if |s| == 0 then "" else (if s[0] == '\'' then "'\"'\"'" else [s[0]]) + QuoteQuotes(s[1..])
  }

  function Quote(word: char -> bool, s: string): string {
    if |s| == 0 then "''"
    else if forall c | c in s :: Safe(word, c) then s
    else "'" + QuoteQuotes(s) + "'"
  }

  function JoinQuoted(word: char -> bool, xs: seq<string>): string {
    if |xs| == 0 then ""
    else if |xs| == 1 then Quote(word, xs[0])
    else Quote(word, xs[0]) + " " + JoinQuoted(word, xs[1..])
  }

  /** What `quote` does: a text of letters, digits and a few more characters is left as it is, the empty
      text becomes two quotes, and any other is put in single quotes. */
  lemma QuoteMeaning(word: char -> bool, s: string)
    ensures Quote(word, "") == "''"
    ensures s != "" && (forall c | c in s :: LeftAlone(word, c)) ==> Quote(word, s) == s
    ensures s != "" && !(forall c | c in s :: LeftAlone(word, c)) ==> Quote(word, s) == "'" + QuoteQuotes(s) + "'"
    ensures '\'' !in s ==> QuoteQuotes(s) == s
  {
    forall c | c in s ensures Safe(word, c) <==> LeftAlone(word, c) {
    }
    NoQuotes(s);
  }

  predicate LeftAlone(word: char -> bool, c: char) {
    'a' <= c <= 'z' || 'A' <= c <= 'Z' || '0' <= c <= '9' || c in "_@%+=:,./-" || (c >= '\U{80}' && word(c))
  }

  lemma {:induction false} NoQuotes(s: string)
    ensures '\'' !in s ==> QuoteQuotes(s) == s
  {
    if |s| > 0 {
      NoQuotes(s[1..]);
      assert s == [s[0]] + s[1..];
    }
  }

  /** One turn on a character of the input, when nothing is pushed back. */
  lemma OneTurn(cfg: Config, s: Lexer, c: char, t: Lexer)
    requires cfg.punctuation == {} || s.chars == ""
    requires s.rest == [c] + t.rest && OnChar(cfg, s.(rest := t.rest), c) == Continue(t)
    ensures Read(cfg, s) == Read(cfg, t)
  {
    assert s.rest[1..] == t.rest;
  }

  lemma SafeChar(word: char -> bool, cfg: Config, s: Lexer, c: char)
    requires Splitting(cfg) && Safe(word, c)
    ensures s.state == Word ==> OnChar(cfg, s, c) == Continue(s.(token := s.token + [c]))
    ensures s.state == Space ==> OnChar(cfg, s, c) == Continue(s.(token := [c], state := Word))
  {
    assert !IsWhite(c) && !IsQuote(c) && c != ESCAPE && c != '#';
  }

  lemma {:induction false} SafeRun(word: char -> bool, cfg: Config, s: Lexer, x: string, tail: string)
    requires Splitting(cfg) && s.state == Word && s.rest == x + tail && forall c | c in x :: Safe(word, c)
    ensures Read(cfg, s) == Read(cfg, s.(rest := tail, token := s.token + x))
    decreases |x|
  {
    hide OnChar, Read;
    if |x| == 0 {
      assert x + tail == tail && s.token + x == s.token;
    } else {
      var t := s.(rest := x[1..] + tail, token := s.token + [x[0]]);
      assert x[0] in x && s.rest == [x[0]] + t.rest;
      SafeChar(word, cfg, s.(rest := t.rest), x[0]);
      OneTurn(cfg, s, x[0], t);
      SafeRun(word, cfg, t, x[1..], tail);
      assert t.token + x[1..] == s.token + x;
    }
  }

  /** Inside single quotes, what `quote` wrote is read back literally up to the closing quote. */
  lemma {:induction false} QuotedRun(cfg: Config, s: Lexer, x: string, tail: string)
    requires Splitting(cfg) && s.state == Quoted('\'') && s.rest == QuoteQuotes(x) + "'" + tail
    ensures Read(cfg, s) == Read(cfg, s.(rest := tail, state := Word, token := s.token + x, quoted := true))
    decreases |x|
  {
    hide Read;
    if |x| == 0 {
      assert s.rest == ['\''] + tail && s.token + x == s.token;
      OneTurn(cfg, s, '\'', s.(rest := tail, state := Word, quoted := true));
    } else {
      var rest := QuoteQuotes(x[1..]) + "'" + tail;
      var t := s.(rest := rest, token := s.token + [x[0]], quoted := true);
      if x[0] == '\'' {
        assert s.rest == "'\"'\"'" + rest;
        OpenedQuote(cfg, s, rest);
      } else {
        assert s.rest == [x[0]] + rest;
        OneTurn(cfg, s, x[0], t);
      }
      QuotedRun(cfg, t, x[1..], tail);
      assert t.token + x[1..] == s.token + x;
    }
  }

  /** Close the single quotes, a single quote in double quotes, open single quotes again. */
  lemma OpenedQuote(cfg: Config, s: Lexer, rest: string)
    requires Splitting(cfg) && s.state == Quoted('\'') && s.rest == "'\"'\"'" + rest
    ensures Read(cfg, s) == Read(cfg, s.(rest := rest, token := s.token + "'", quoted := true))
  {
    hide Read;
    var s1 := s.(rest := "\"'\"'" + rest, state := Word, quoted := true);
    var s2 := s1.(rest := "'\"'" + rest, state := Quoted('"'));
    var s3 := s2.(rest := "\"'" + rest, token := s.token + "'");
    var s4 := s3.(rest := "'" + rest, state := Word);
    var s5 := s4.(rest := rest, state := Quoted('\''));
    OneTurn(cfg, s, '\'', s1);
    OneTurn(cfg, s1, '"', s2);
    OneTurn(cfg, s2, '\'', s3);
    OneTurn(cfg, s3, '"', s4);
    OneTurn(cfg, s4, '\'', s5);
  }

  /** A word is handed out at the end of the input or at the blank that follows it. */
  lemma WordEnds(cfg: Config, s: Lexer, more: string)
    requires Splitting(cfg) && s.state == Word && (s.token != "" || s.quoted)
    requires s.rest == "" || s.rest == " " + more
    ensures Read(cfg, s) == Token(Some(s.token),
      if s.rest == "" then s.(state := End, token := "") else s.(state := Space, token := "", rest := more))
  {
    if s.rest != "" {
      assert s.rest[0] == ' ' && s.rest[1..] == more;
      assert IsWhite(' ');
    }
  }

  /** The two shapes of a quoted string, read from a fresh lexer: in the end the lexer stands behind it
      in the word state with the string as its token. */
  lemma ReadBare(word: char -> bool, cfg: Config, x: string, tail: string)
    requires Splitting(cfg) && |x| > 0 && forall c | c in x :: Safe(word, c)
    ensures Read(cfg, Start(x + tail)) == Read(cfg, Start(tail).(state := Word, token := x))
  {
    hide OnChar, Read;
    var s := Start(x + tail);
    var t := s.(rest := x[1..] + tail, state := Word, token := [x[0]]);
    assert x[0] in x && s.rest == [x[0]] + t.rest;
    SafeChar(word, cfg, s.(rest := t.rest), x[0]);
    OneTurn(cfg, s, x[0], t);
    SafeRun(word, cfg, t, x[1..], tail);
    assert t.token + x[1..] == x;
  }

  lemma ReadInQuotes(cfg: Config, x: string, tail: string)
    requires Splitting(cfg) && '\'' !in cfg.wordchars
    ensures Read(cfg, Start("'" + QuoteQuotes(x) + "'" + tail)) ==
      Read(cfg, Start(tail).(state := Word, token := x, quoted := true))
  {
    hide Read;
    var s := Start("'" + QuoteQuotes(x) + "'" + tail);
    var t := s.(rest := QuoteQuotes(x) + "'" + tail, state := Quoted('\''));
    assert s.rest == ['\''] + t.rest;
    OneTurn(cfg, s, '\'', t);
    QuotedRun(cfg, t, x, tail);
    assert "" + x == x;
  }

  /** One quoted string is read back as one token. */
  lemma ReadQuoted(word: char -> bool, cfg: Config, x: string, tail: string, more: string)
    requires Splitting(cfg) && '\'' !in cfg.wordchars && (tail == "" || tail == " " + more)
    ensures var r := Read(cfg, Start(Quote(word, x) + tail));
      r.Token? && r.token == Some(x) && Next(r.lexer) == if tail == "" then Start("").(state := End) else Start(more)
  {
    hide Read, Splitting;
    if |x| > 0 && forall c | c in x :: Safe(word, c) {
      ReadBare(word, cfg, x, tail);
      WordEnds(cfg, Start(tail).(state := Word, token := x), more);
    } else {
      assert |x| == 0 ==> Quote(word, x) == "'" + QuoteQuotes(x) + "'";
      ReadInQuotes(cfg, x, tail);
      WordEnds(cfg, Start(tail).(state := Word, token := x, quoted := true), more);
    }
  }

  lemma SplitConfigSplits(comments: bool)
    ensures Splitting(SplitConfig(comments)) && '\'' !in SplitConfig(comments).wordchars
  {
  }

  /** `split(' '.join(quote(x) for x in xs)) == xs`, whatever the strings hold. */
  lemma {:induction false} SplitUndoesQuote(word: char -> bool, comments: bool, xs: seq<string>)
    ensures AllTokens(SplitConfig(comments), Start(JoinQuoted(word, xs))) == Tokens(xs)
    decreases |xs|
  {
    hide Quote, Splitting, SplitConfig;
    var cfg := SplitConfig(comments);
    SplitConfigSplits(comments);
    if |xs| == 1 {
      assert Quote(word, xs[0]) + "" == Quote(word, xs[0]);
      ReadQuoted(word, cfg, xs[0], "", "");
      assert xs == [xs[0]];
    } else if |xs| > 1 {
      var more := JoinQuoted(word, xs[1..]);
      assert Quote(word, xs[0]) + " " + more == Quote(word, xs[0]) + (" " + more);
      ReadQuoted(word, cfg, xs[0], " " + more, more);
      SplitUndoesQuote(word, comments, xs[1..]);
      assert xs == [xs[0]] + xs[1..];
    }
  }

  // Punctuation mode ------------------------------------------------------------------------------

  /** `shlex(text, posix=True, punctuation_chars=True)`. */
  const PUNCTUATION_CONFIG: Config :=
    Config({'#'}, {'(', ')', ';', '<', '>', '|', '&'}, LETTERS + {'~', '-', '.', '/', '*', '?', '='}, false)

  /** The lexer of the honeypot's shell, which adds word characters, and so has the parentheses in both
      classes. */
  const SHELL_CONFIG: Config :=
    PUNCTUATION_CONFIG.(wordchars := PUNCTUATION_CONFIG.wordchars
                                     + {'@', '%', '{', '}', '=', '$', ':', '+', '^', ',', '(', ')'})

  /** The two classes may overlap: a character in both starts a word, and goes on in either. */
  predicate Splitless(cfg: Config) {
    cfg.punctuation != {} && !cfg.whitespaceSplit
    && forall c | c in cfg.wordchars + cfg.punctuation :: !IsWhite(c)
  }

  lemma PunctuationConfigFits()
    ensures Splitless(PUNCTUATION_CONFIG)
  {
    assert '(' in PUNCTUATION_CONFIG.punctuation;
    assert !IsWhite('(') && !IsWhite(')') && !IsWhite(';') && !IsWhite('<') && !IsWhite('>') && !IsWhite('|');
  }

  /** The classes of the shell's lexer, character by character. */
  lemma ShellClasses(c: char)
    ensures c in SHELL_CONFIG.punctuation <==> c in "();<>|&"
    ensures c in SHELL_CONFIG.wordchars <==>
      'a' <= c <= 'z' || 'A' <= c <= 'Z' || '0' <= c <= '9' || c in "_~-./*?=@%{}$:+^,()"
    ensures (c in SHELL_CONFIG.commenters <==> c == '#') && !SHELL_CONFIG.whitespaceSplit
  {
  }

  /** Blanks, quotes and the escape character by their codes in ASCII. */
  lemma SpecialCharacters(c: char)
    ensures var n := c as int;
      && (IsWhite(c) <==> n == 9 || n == 10 || n == 13 || n == 32)
      && (IsQuote(c) <==> n == 34 || n == 39)
      && (c == ESCAPE <==> n == 92) && (c == ESCAPED_QUOTE <==> n == 34)
  {
  }

  lemma ShellConfigFits()
    ensures Splitless(SHELL_CONFIG)
  {
    hide LETTERS;
    assert '(' in SHELL_CONFIG.punctuation;
    forall c | c in SHELL_CONFIG.wordchars + SHELL_CONFIG.punctuation ensures !IsWhite(c) {
      if c in PUNCTUATION_CONFIG.wordchars + PUNCTUATION_CONFIG.punctuation {
        PunctuationConfigFits();
      }
    }
  }

  /** Input without quote, escape and comment characters. */
  predicate Plain(cfg: Config, x: string) {
    forall c | c in x :: !IsQuote(c) && c != ESCAPE && c !in cfg.commenters
  }

  /** How many characters in front are in the class. */
  function Span(class_: set<char>, x: string): (n: nat)
    ensures n <= |x|
    ensures forall i | 0 <= i < n :: x[i] in class_
    ensures n < |x| ==> x[n] !in class_
  {
    if |x| > 0 && x[0] in class_ then 1 + Span(class_, x[1..]) else 0
  }

  /** The characters that may go on in the token that `c` starts. */
  function ClassOf(cfg: Config, c: char): set<char> {
    if c in cfg.wordchars then cfg.wordchars else if c in cfg.punctuation then cfg.punctuation else {}
  }

  /** The reference tokeniser: drop blanks, then take the longest run of the class of the first character. */
  function Runs(cfg: Config, x: string): seq<string>
    decreases |x|
  {
    if |x| == 0 then []
    else if IsWhite(x[0]) then Runs(cfg, x[1..])
    else
      var n := 1 + Span(ClassOf(cfg, x[0]), x[1..]);
      [x[..n]] + Runs(cfg, x[n..])
  }

  /** Where the lexer stands behind a run that `y` follows: a blank is dropped, anything else has
      been read one too far and is pushed back. */
  function Behind(y: string): Lexer {
    if |y| == 0 then Start("").(state := End)
    else if IsWhite(y[0]) then Start(y[1..])
    else Start(y[1..]).(chars := [y[0]])
  }

  /** A word or punctuation token under way takes in the rest of its run. */
  lemma {:induction false} ReadRun(cfg: Config, s: Lexer)
    requires Splitless(cfg) && Plain(cfg, s.rest) && s.chars == "" && s.tokens == [] && s.token != "" && !s.quoted
    requires s.state == Word || s.state == Punct
    ensures var class_ := if s.state == Word then cfg.wordchars else cfg.punctuation;
      var n := Span(class_, s.rest);
      var r := Read(cfg, s);
      r.Token? && r.token == Some(s.token + s.rest[..n]) && Next(r.lexer) == Behind(s.rest[n..])
    decreases |s.rest|
  {
    hide Read, Turn, OnChar, Splitless, Behind, Next, Span;
    var class_ := if s.state == Word then cfg.wordchars else cfg.punctuation;
    SpanCut(class_, s.rest);
    if |s.rest| == 0 || s.rest[0] !in class_ {
      Concat(s.token, "", "");
      RunOver(cfg, s);
    } else {
      var c, more := s.rest[0], s.rest[1..];
      var t := s.(rest := more, token := s.token + [c]);
      assert c in s.rest && s.rest == [c] + more;
      GoesOn(cfg, s.(rest := more), c);
      OneTurn(cfg, s, c, t);
      PlainTail(cfg, s.rest, 1);
      ReadRun(cfg, t);
      Concat(s.token, [c], more[..Span(class_, more)]);
    }
  }

  lemma Concat(a: string, b: string, c: string)
    ensures a + b + c == a + (b + c) && a + "" == a && "" + a == a
  {
  }

  lemma SpanCut(class_: set<char>, x: string)
    ensures |x| > 0 && x[0] in class_ ==>
      var n, m := Span(class_, x), Span(class_, x[1..]);
      x[..n] == [x[0]] + x[1..][..m] && x[n..] == x[1..][m..]
    ensures |x| == 0 || x[0] !in class_ ==> x[..Span(class_, x)] == "" && x[Span(class_, x)..] == x
  {
  }

  lemma GoesOn(cfg: Config, s: Lexer, c: char)
    requires Splitless(cfg) && Plain(cfg, [c]) && (s.state == Word || s.state == Punct)
    requires c in (if s.state == Word then cfg.wordchars else cfg.punctuation)
    ensures OnChar(cfg, s, c) == Continue(s.(token := s.token + [c]))
  {
    assert c in [c];
  }

  lemma RunOver(cfg: Config, s: Lexer)
    requires Splitless(cfg) && Plain(cfg, s.rest) && s.chars == "" && s.tokens == [] && s.token != "" && !s.quoted
    requires s.state == Word || s.state == Punct
    requires |s.rest| > 0 ==> s.rest[0] !in (if s.state == Word then cfg.wordchars else cfg.punctuation)
    ensures var r := Read(cfg, s);
      r.Token? && r.token == Some(s.token) && Next(r.lexer) == Behind(s.rest)
  {
    if |s.rest| > 0 {
      var c := s.rest[0];
      assert c in s.rest;
      var m := OnChar(cfg, s.(rest := s.rest[1..]), c);
      assert s.chars + [c] == [c];
      assert Turn(cfg, s) == m && m.Emit?;
    }
  }

  /** Taking the next character, pushed back or not. */
  lemma TakeChar(cfg: Config, s: Lexer, c: char, more: string)
    requires cfg.punctuation != {} && |s.chars| <= 1 && s.chars + s.rest == [c] + more
    ensures Turn(cfg, s) == OnChar(cfg, s.(chars := "", rest := more), c)
  {
    var x := s.chars + s.rest;
    assert x[0] == c && x[1..] == more;
    if |s.chars| == 1 {
      assert s.chars == [c] && s.rest == x[1..];
      assert s.chars[..0] == "";
    } else {
      assert s.chars == "" && s.rest == x;
    }
  }

  /** The state between two calls, with `x` left to read. */
  predicate Between(s: Lexer, x: string) {
    && Fresh(s) && s.tokens == [] && |s.chars| <= 1 && s.chars + s.rest == x
    && (s.state == End ==> x == "")
  }

  lemma RunsSkip(cfg: Config, y: string)
    ensures Runs(cfg, y) == Runs(cfg, Shown(y)) && Between(Behind(y), Shown(y))
  {
    if |y| > 0 {
      assert [y[0]] + y[1..] == y;
      assert "" + y[1..] == y[1..];
    }
  }

  /** What is left of `y` when a blank in front has been dropped. */
  function Shown(y: string): string {
    if |y| > 0 && IsWhite(y[0]) then y[1..] else y
  }

  /** In punctuation mode the lexer refines the reference tokeniser on plain input. */
  lemma {:induction false} LexerRefinesRuns(cfg: Config, s: Lexer, x: string)
    requires Splitless(cfg) && Plain(cfg, x) && Between(s, x)
    ensures AllTokens(cfg, s) == Tokens(Runs(cfg, x))
    decreases |x|
  {
    hide Splitless, Turn, Read, Plain;
    if |x| == 0 {
      EndOfInput(cfg, s);
    } else if IsWhite(x[0]) {
      SkipBlank(cfg, s, x);
      PlainTail(cfg, x, 1);
      LexerRefinesRuns(cfg, Start(x[1..]), x[1..]);
    } else {
      var t, z := RunsStep(cfg, s, x);
      PlainTail(cfg, x, |x| - |z|);
      LexerRefinesRuns(cfg, t, z);
    }
  }

  lemma PlainTail(cfg: Config, x: string, k: nat)
    requires Plain(cfg, x) && k <= |x|
    ensures Plain(cfg, x[k..])
  {
    forall c | c in x[k..] ensures c in x {
    }
  }

  lemma EndOfInput(cfg: Config, s: Lexer)
    requires Between(s, "")
    ensures AllTokens(cfg, s) == Tokens([])
  {
    assert |s.chars| + |s.rest| == |s.chars + s.rest|;
    FreshEnds(cfg, s);
  }

  lemma SkipBlank(cfg: Config, s: Lexer, x: string)
    requires Splitless(cfg) && Plain(cfg, x) && Between(s, x) && |x| > 0 && IsWhite(x[0])
    ensures Between(Start(x[1..]), x[1..]) && AllTokens(cfg, s) == AllTokens(cfg, Start(x[1..]))
  {
    hide Splitless, Plain, Read, AllTokens;
    StartBetween(x[1..]);
    assert x == [x[0]] + x[1..];
    BlankGone(cfg, s, x[0], x[1..]);
    SameTokens(cfg, s, Start(x[1..]));
  }

  lemma BlankGone(cfg: Config, s: Lexer, c: char, more: string)
    requires Splitless(cfg) && Plain(cfg, [c] + more) && Between(s, [c] + more) && IsWhite(c)
    ensures Read(cfg, s) == Read(cfg, Start(more))
  {
    hide OnChar, Splitless, Turn, Read;
    assert c in [c] + more;
    NonEmptyPunctuation(cfg);
    TakeChar(cfg, s, c, more);
    FromSpace(cfg, s.(chars := "", rest := more), c);
    ReadOn(cfg, s);
  }

  lemma SameTokens(cfg: Config, s: Lexer, t: Lexer)
    requires Sane(cfg, s) && Sane(cfg, t) && s.tokens == t.tokens == [] && Read(cfg, s) == Read(cfg, t)
    ensures AllTokens(cfg, s) == AllTokens(cfg, t)
  {
    hide Read;
  }

  lemma ReadOn(cfg: Config, s: Lexer)
    ensures var m := Turn(cfg, s);
      Read(cfg, s) ==
        if m.Continue? then Read(cfg, m.lexer)
        else if m.Raise? then Failed(m.error, s)
        else Token(if m.lexer.token == "" && !m.lexer.quoted then None else Some(m.lexer.token), m.lexer.(token := ""))
  {
  }

  lemma FromSpace(cfg: Config, s: Lexer, c: char)
    requires Splitless(cfg) && Plain(cfg, [c]) && s.state == Space && s.token == "" && !s.quoted
    ensures OnChar(cfg, s, c) ==
      if IsWhite(c) then Continue(s)
      else if c in cfg.wordchars then Continue(s.(token := [c], state := Word))
      else if c in cfg.punctuation then Continue(s.(token := [c], state := Punct))
      else Emit(s.(token := [c]))
  {
    assert c in [c];
  }

  /** One call of `read_token` on input that starts with a non-blank: exactly one run. A character
      of no class is a token of its own and leaves the rest as it is. */
  lemma ReadOne(cfg: Config, s: Lexer, x: string)
    requires Splitless(cfg) && Plain(cfg, x) && Between(s, x) && |x| > 0 && !IsWhite(x[0])
    ensures var n := 1 + Span(ClassOf(cfg, x[0]), x[1..]);
      var r := Read(cfg, s);
      r.Token? && r.token == Some(x[..n]) && (Next(r.lexer) == Behind(x[n..]) || Next(r.lexer) == Start(x[n..]))
  {
    hide OnChar, Splitless, Turn, Behind, Read, Span;
    var c, more := x[0], x[1..];
    var m := Span(ClassOf(cfg, c), more);
    assert x == [c] + more && x[..1 + m] == [c] + more[..m] && x[1 + m..] == more[m..];
    assert cfg.punctuation != {} by { NonEmptyPunctuation(cfg); }
    TakeChar(cfg, s, c, more);
    PlainTail(cfg, x, 1);
    var s1 := s.(chars := "", rest := more);
    assert c in x;
    FromSpace(cfg, s1, c);
    ReadOn(cfg, s);
    if c in cfg.wordchars {
      ReadRun(cfg, s1.(token := [c], state := Word));
    } else if c in cfg.punctuation {
      ReadRun(cfg, s1.(token := [c], state := Punct));
    } else {
      SpanNone(more);
      assert Next(s1.(token := "")) == Start(more);
    }
  }

  lemma SpanNone(x: string)
    ensures Span({}, x) == 0
  {
  }

  lemma NonEmptyPunctuation(cfg: Config)
    requires Splitless(cfg)
    ensures cfg.punctuation != {}
  {
  }

  /** After one run: the lexer that is left, and the text that is left to it. */
  ghost predicate Leads(cfg: Config, s: Lexer, x: string, t: Lexer, z: string) {
    && Between(t, z) && |z| < |x| && z == x[|x| - |z|..]
    && Sane(cfg, s) && Sane(cfg, t)
    && (AllTokens(cfg, t) == Tokens(Runs(cfg, z)) ==> AllTokens(cfg, s) == Tokens(Runs(cfg, x)))
  }

  lemma RunsStep(cfg: Config, s: Lexer, x: string) returns (t: Lexer, z: string)
    requires Splitless(cfg) && Plain(cfg, x) && Between(s, x) && |x| > 0 && !IsWhite(x[0])
    ensures Leads(cfg, s, x, t, z)
  {
    hide Read, Splitless, Behind, Plain, Span, ClassOf, AllTokens, Runs, Shown, Next;
    var n := 1 + Span(ClassOf(cfg, x[0]), x[1..]);
    var y := x[n..];
    ReadOne(cfg, s, x);
    RunsSkip(cfg, y);
    ShownTail(y);
    t := Next(Read(cfg, s).lexer);
    z := if t == Behind(y) then Shown(y) else y;
    StartBetween(y);
    AllFirst(cfg, s);
    RunsFirst(cfg, x);
    assert y[|y| - |z|..] == x[|x| - |z|..];
  }

  lemma StartBetween(y: string)
    ensures Between(Start(y), y)
  {
    Concat(y, "", "");
  }

  lemma ShownTail(y: string)
    ensures |Shown(y)| <= |y| && Shown(y) == y[|y| - |Shown(y)|..]
  {
  }

  lemma AllFirst(cfg: Config, s: Lexer)
    requires Fresh(s) && s.tokens == [] && Read(cfg, s).Token? && Read(cfg, s).token.Some?
    ensures var r := Read(cfg, s);
      Fresh(Next(r.lexer)) && AllTokens(cfg, s) == Prepend(r.token.value, AllTokens(cfg, Next(r.lexer)))
  {
    ReadProgress(cfg, s);
  }

  lemma RunsFirst(cfg: Config, x: string)
    requires |x| > 0 && !IsWhite(x[0])
    ensures var n := 1 + Span(ClassOf(cfg, x[0]), x[1..]);
      Runs(cfg, x) == [x[..n]] + Runs(cfg, x[n..])
  {
  }

  function Flat(tokens: seq<string>): string {
    if |tokens| == 0 then "" else tokens[0] + Flat(tokens[1..])
  }

  /** The text without its blanks. */
  function Visible(x: string): string {
    if |x| == 0 then "" else (if IsWhite(x[0]) then "" else [x[0]]) + Visible(x[1..])
  }

  lemma {:induction false} VisibleAppend(a: string, b: string)
    ensures Visible(a + b) == Visible(a) + Visible(b)
  {
    if |a| > 0 {
      VisibleAppend(a[1..], b);
      assert (a + b)[1..] == a[1..] + b;
    } else {
      assert a + b == b;
    }
  }

  lemma {:induction false} VisibleAll(a: string)
    requires forall c | c in a :: !IsWhite(c)
    ensures Visible(a) == a
  {
    if |a| > 0 {
      assert a[0] in a && forall c | c in a[1..] :: c in a;
      VisibleAll(a[1..]);
      assert a == [a[0]] + a[1..];
    }
  }

  /** A token: not empty, no blank, and all of one class, or a single character of no class. */
  predicate Uniform(cfg: Config, token: string) {
    && |token| > 0 && (forall c | c in token :: !IsWhite(c))
    && (|token| == 1 || forall c | c in token :: c in ClassOf(cfg, token[0]))
  }

  lemma FirstRun(cfg: Config, x: string)
    requires Splitless(cfg) && |x| > 0 && !IsWhite(x[0])
    ensures Uniform(cfg, x[..1 + Span(ClassOf(cfg, x[0]), x[1..])])
  {
    var class_ := ClassOf(cfg, x[0]);
    var token := x[..1 + Span(class_, x[1..])];
    forall i | 0 <= i < |token| ensures !IsWhite(token[i]) && (|token| > 1 ==> token[i] in class_) {
      if i > 0 {
        assert x[1..][i - 1] == token[i];
      } else if |token| > 1 {
        assert x[1..][0] in class_;
      }
    }
  }

  /** Nothing is lost and nothing invented: the tokens in order are the text without its blanks. */
  lemma {:induction false} RunsConserve(cfg: Config, x: string)
    requires Splitless(cfg)
    ensures Flat(Runs(cfg, x)) == Visible(x)
    ensures forall token | token in Runs(cfg, x) :: Uniform(cfg, token)
    decreases |x|
  {
    hide Splitless, Uniform;
    if |x| > 0 && IsWhite(x[0]) {
      RunsConserve(cfg, x[1..]);
    } else if |x| > 0 {
      var n := 1 + Span(ClassOf(cfg, x[0]), x[1..]);
      RunsConserve(cfg, x[n..]);
      FirstRun(cfg, x);
      UniformVisible(cfg, x[..n]);
      VisibleAppend(x[..n], x[n..]);
      assert x == x[..n] + x[n..];
      assert Runs(cfg, x)[1..] == Runs(cfg, x[n..]);
    }
  }

  lemma UniformVisible(cfg: Config, token: string)
    requires Uniform(cfg, token)
    ensures Visible(token) == token
  {
    VisibleAll(token);
  }

  /** The same on the lexer of the shell. */
  lemma ShellConserves(text: string)
    requires Plain(SHELL_CONFIG, text)
    ensures var r := AllTokens(SHELL_CONFIG, Start(text));
      && r == Tokens(Runs(SHELL_CONFIG, text))
      && Flat(r.list) == Visible(text)
      && forall token | token in r.list :: Uniform(SHELL_CONFIG, token)
  {
    hide SHELL_CONFIG;
    ShellConfigFits();
    Concat(text, "", "");
    LexerRefinesRuns(SHELL_CONFIG, Start(text), text);
    RunsConserve(SHELL_CONFIG, text);
  }

  /** The law of punctuation mode, on the lexer itself. */
  lemma PunctuationModeConserves(text: string)
    requires Plain(PUNCTUATION_CONFIG, text)
    ensures var r := AllTokens(PUNCTUATION_CONFIG, Start(text));
      && r == Tokens(Runs(PUNCTUATION_CONFIG, text))
      && Flat(r.list) == Visible(text)
      && forall token | token in r.list :: Uniform(PUNCTUATION_CONFIG, token)
  {
    hide PUNCTUATION_CONFIG;
    PunctuationConfigFits();
    Concat(text, "", "");
    LexerRefinesRuns(PUNCTUATION_CONFIG, Start(text), text);
    RunsConserve(PUNCTUATION_CONFIG, text);
  }

  datatype Result = Ok(token: Option<string>) | Err(error: LexError)

  function Answer(o: Outcome): Result {
    match o
    case Failed(e, _) => Err(e)
    case Token(token, _) => Ok(token)
  }

  lemma NeverRaises(cfg: Config, s: Lexer, c: char)
    ensures !OnChar(cfg, s, c).Raise?
  {
  }

  // The lexer object ------------------------------------------------------------------------------

  class Shlex {
    const cfg: Config
    var instream: string
    var pushbackChars: string
    var pushback: seq<string>
    var state: State
    var token: string

    /** The fields together with the two variables that `read_token` starts from. */
    function View(): Lexer
      reads this
    {
      Lexer(instream, pushbackChars, pushback, state, token, false, Space)
    }

    constructor (cfg: Config, text: string)
      ensures View() == Start(text) && this.cfg == cfg
    {
      this.cfg := cfg;
      instream, pushbackChars, pushback, state, token := text, "", [], Space, "";
    }

    /** Err is ValueError; Ok(None) is the end of the input. */
    method ReadToken() returns (r: Result)
      modifies this
      ensures r == Answer(Read(cfg, old(View()))) && View() == Next(Read(cfg, old(View())).lexer)
    {
      hide Read, Turn;
      var quoted := false;
      var resume := Space;
      while true
        invariant Read(cfg, Lexer(instream, pushbackChars, pushback, state, token, quoted, resume)) ==
                  Read(cfg, old(View()))
        decreases Weight(Lexer(instream, pushbackChars, pushback, state, token, quoted, resume))
      {
        ghost var before := Lexer(instream, pushbackChars, pushback, state, token, quoted, resume);
        TurnLighter(cfg, before);
        ReadOn(cfg, before);
        var move := NextTurn(quoted, resume);
        if move.Raise? {
          return Err(move.error);
        }
        var s := move.lexer;
        instream, pushbackChars, pushback := s.rest, s.chars, s.tokens;
        state, token, quoted, resume := s.state, s.token, s.quoted, s.resume;
        if move.Emit? {
          break;
        }
      }
      var result := token;
      token := "";
      r := if result == "" && !quoted then Ok(None) else Ok(Some(result));
    }

    /** The next character leaves its stream; at the end of the input nothing changes. */
    method NextTurn(quoted: bool, resume: State) returns (move: Move)
      modifies this`instream, this`pushbackChars
      ensures move == Turn(cfg, old(View()).(quoted := quoted, resume := resume))
      ensures move.Raise? ==> View() == old(View())
    {
      hide InSpace, InQuote, InEscape, InWord;
      if cfg.punctuation != {} && |pushbackChars| > 0 {
        var c := pushbackChars[|pushbackChars| - 1];
        pushbackChars := pushbackChars[..|pushbackChars| - 1];
        NeverRaises(cfg, Lexer(instream, pushbackChars, pushback, state, token, quoted, resume), c);
        move := OnChar(cfg, Lexer(instream, pushbackChars, pushback, state, token, quoted, resume), c);
      } else if |instream| > 0 {
        var c := instream[0];
        instream := instream[1..];
        NeverRaises(cfg, Lexer(instream, pushbackChars, pushback, state, token, quoted, resume), c);
        move := OnChar(cfg, Lexer(instream, pushbackChars, pushback, state, token, quoted, resume), c);
      } else {
        move := AtEnd(Lexer(instream, pushbackChars, pushback, state, token, quoted, resume));
      }
    }

    method GetToken() returns (r: Result)
      modifies this
      ensures old(pushback) != [] ==>
        r == Ok(Some(old(pushback)[0])) && View() == old(View()).(tokens := old(pushback)[1..])
      ensures old(pushback) == [] ==>
        r == Answer(Read(cfg, old(View()))) && View() == Next(Read(cfg, old(View())).lexer)
      ensures old(Sane(cfg, View())) ==> Sane(cfg, View())
    {
      hide Read;
      if Sane(cfg, View()) {
        ReadProgress(cfg, View());
      }
      if |pushback| > 0 {
        r := Ok(Some(pushback[0]));
        pushback := pushback[1..];
      } else {
        r := ReadToken();
      }
    }

    /** `list(lex)`, on any lexer object: `Sane` holds of a new one and every call keeps it. */
    method ToList() returns (r: Tokens)
      requires Sane(cfg, View())
      modifies this
      ensures r == AllTokens(cfg, old(View()))
    {
      hide Read, Fresh, Sane;
      var list := [];
      OntoNone(AllTokens(cfg, View()));
      while true
        invariant Sane(cfg, View())
        invariant AllTokens(cfg, old(View())) == Onto(list, AllTokens(cfg, View()))
        decreases if Fresh(View()) then 0 else 1, Remaining(View())
      {
        ghost var before := View();
        ReadProgress(cfg, before);
        var t := GetToken();
        match t {
          case Err(e) => return Broken(e);
          case Ok(None) =>
            OntoNil(list);
            return Tokens(list);
          case Ok(Some(token)) =>
            GoesDown(cfg, before, View());
            OntoPrepend(list, token, AllTokens(cfg, View()));
            list := list + [token];
        }
      }
    }
  }

  function Onto(list: seq<string>, more: Tokens): Tokens {
    if more.Broken? then more else Tokens(list + more.list)
  }

  lemma OntoPrepend(list: seq<string>, token: string, more: Tokens)
    ensures Onto(list, Prepend(token, more)) == Onto(list + [token], more)
  {
    if more.Tokens? {
      assert list + ([token] + more.list) == list + [token] + more.list;
    }
  }

  lemma OntoNil(list: seq<string>)
    ensures Onto(list, Tokens([])) == Tokens(list)
  {
    assert list + [] == list;
  }

  lemma OntoNone(more: Tokens)
    ensures Onto([], more) == more
  {
    assert more.Tokens? ==> [] + more.list == more.list;
  }

  /** After a token the lexer is fresh, and has less to hand out if it was fresh before. */
  lemma GoesDown(cfg: Config, s: Lexer, t: Lexer)
    requires Sane(cfg, s)
    requires if s.tokens != [] then t == s.(tokens := s.tokens[1..])
             else Read(cfg, s).Token? && Read(cfg, s).token.Some? && t == Next(Read(cfg, s).lexer)
    ensures Sane(cfg, t) && (Fresh(s) || s.tokens == [] ==> Fresh(t))
    ensures Fresh(s) || s.tokens != [] ==> Remaining(t) < Remaining(s)
  {
    ReadProgress(cfg, s);
  }

  method Split(text: string, comments: bool) returns (r: Tokens)
    ensures r == AllTokens(SplitConfig(comments), Start(text))
  {
    var lex := new Shlex(SplitConfig(comments), text);
    r := lex.ToList();
  }
}
