/** What the shell lexer makes of words that are put together from bare text, quoted text and escaped
    characters, of punctuation, blanks and comments: an independent printer, and the lexer undoes it. */
module ShellWords {
  import opened Options
  import opened Shlex

  /** A place inside double quotes: a character, or a backslash with the character behind it. */
  datatype Inner = Plain(c: char) | Slashed(c: char)

  /** A part of a word. */
  datatype Segment = Bare(text: string) | Single(text: string) | Double(inner: seq<Inner>) | Escaped(c: char)

  function ShownOne(i: Inner): string {
    match i
    case Plain(c) => [c]
    case Slashed(c) => ['\\', c]
  }

  /** In double quotes the backslash goes before a double quote and before a backslash, and stays before
      anything else. */
  function MeantOne(i: Inner): string {
    match i
    case Plain(c) => [c]
    case Slashed(c) => if c == '"' || c == '\\' then [c] else ['\\', c]
  }

  function ShownInner(inner: seq<Inner>): string {
    if |inner| == 0 then "" else ShownOne(inner[0]) + ShownInner(inner[1..])
  }

  function MeantInner(inner: seq<Inner>): string {
    if |inner| == 0 then "" else MeantOne(inner[0]) + MeantInner(inner[1..])
  }

  function ShownSegment(g: Segment): string {
    match g
    case Bare(text) => text
    case Single(text) => "'" + text + "'"
    case Double(inner) => "\"" + ShownInner(inner) + "\""
    case Escaped(c) => ['\\', c]
  }

  function MeantSegment(g: Segment): string {
    match g
    case Bare(text) => text
    case Single(text) => text
    case Double(inner) => MeantInner(inner)
    case Escaped(c) => [c]
  }

  function ShownWord(w: seq<Segment>): string {
    if |w| == 0 then "" else ShownSegment(w[0]) + ShownWord(w[1..])
  }

  function MeantWord(w: seq<Segment>): string {
    if |w| == 0 then "" else MeantSegment(w[0]) + MeantWord(w[1..])
  }

  /** Blanks, quotes and the backslash are nothing else besides. */
  predicate Sensible(cfg: Config) {
    forall c | IsWhite(c) || IsQuote(c) || c == ESCAPE ::
      c !in cfg.commenters && c !in cfg.wordchars && c !in cfg.punctuation
  }

  /** A character that goes on in a word just as it is. */
  predicate Going(cfg: Config, c: char) {
    && !IsWhite(c) && !IsQuote(c) && c != ESCAPE && c !in cfg.commenters
    && (c in cfg.wordchars || cfg.whitespaceSplit)
  }

  predicate InnerOk(inner: seq<Inner>) {
    forall i | i in inner && i.Plain? :: i.c != '"' && i.c != '\\'
  }

  predicate SegmentOk(cfg: Config, g: Segment) {
    match g
    case Bare(text) => |text| > 0 && forall c | c in text :: Going(cfg, c)
    case Single(text) => '\'' !in text
    case Double(inner) => InnerOk(inner)
    case Escaped(c) => true
  }

  predicate WordOk(cfg: Config, w: seq<Segment>) {
    forall g | g in w :: SegmentOk(cfg, g)
  }

  predicate HasQuotes(w: seq<Segment>) {
    exists g :: g in w && (g.Single? || g.Double?)
  }

  // Inside a word ---------------------------------------------------------------------------------

  lemma {:induction false} ReadBareText(cfg: Config, s: Lexer, x: string, tail: string)
    requires s.state == Word && s.chars == "" && s.rest == x + tail && forall c | c in x :: Going(cfg, c)
    ensures Read(cfg, s) == Read(cfg, s.(rest := tail, token := s.token + x))
    decreases |x|
  {
    hide Read;
    if |x| == 0 {
      assert x + tail == tail && s.token + x == s.token;
    } else {
      var t := s.(rest := x[1..] + tail, token := s.token + [x[0]]);
      assert x[0] in x && s.rest == [x[0]] + t.rest;
      OneTurn(cfg, s, x[0], t);
      ReadBareText(cfg, t, x[1..], tail);
      assert t.token + x[1..] == s.token + x;
    }
  }

  lemma {:induction false} ReadSingleText(cfg: Config, s: Lexer, x: string, tail: string)
    requires s.state == Quoted('\'') && s.chars == "" && s.rest == x + ("'" + tail) && '\'' !in x
    ensures Read(cfg, s) == Read(cfg, s.(rest := tail, state := Word, token := s.token + x, quoted := true))
    decreases |x|
  {
    hide Read;
    if |x| == 0 {
      assert s.rest == ['\''] + tail && s.token + x == s.token;
      OneTurn(cfg, s, '\'', s.(rest := tail, state := Word, quoted := true));
    } else {
      var t := s.(rest := x[1..] + ("'" + tail), token := s.token + [x[0]], quoted := true);
      assert s.rest == [x[0]] + t.rest;
      OneTurn(cfg, s, x[0], t);
      ReadSingleText(cfg, t, x[1..], tail);
      assert t.token + x[1..] == s.token + x;
    }
  }

  lemma InnerTurn(cfg: Config, s: Lexer, i: Inner, more: string) returns (t: Lexer)
    requires s.state == Quoted('"') && s.chars == "" && s.rest == ShownOne(i) + more && InnerOk([i])
    ensures Read(cfg, s) == Read(cfg, t)
    ensures t == s.(rest := more, token := s.token + MeantOne(i), quoted := true, resume := t.resume)
  {
    hide Read;
    assert i in [i];
    match i
    case Plain(c) =>
      t := s.(rest := more, token := s.token + [c], quoted := true);
      OneTurn(cfg, s, c, t);
    case Slashed(c) =>
      var e := s.(rest := [c] + more, state := Escape, quoted := true, resume := Quoted('"'));
      assert s.rest == ['\\'] + e.rest;
      OneTurn(cfg, s, '\\', e);
      t := e.(rest := more, state := Quoted('"'), token := s.token + MeantOne(i));
      assert e.token + ['\\'] + [c] == s.token + ['\\', c] && e.token + "" + [c] == s.token + [c];
      OneTurn(cfg, e, c, t);
  }

  lemma InnerParts(inner: seq<Inner>, tail: string)
    requires |inner| > 0
    ensures ShownInner(inner) + tail == ShownOne(inner[0]) + (ShownInner(inner[1..]) + tail)
    ensures MeantInner(inner) == MeantOne(inner[0]) + MeantInner(inner[1..])
    ensures InnerOk(inner) ==> InnerOk([inner[0]]) && InnerOk(inner[1..])
  {
    hide ShownOne, MeantOne;
    assert inner[0] in inner && forall i | i in inner[1..] :: i in inner;
  }

  /** The text inside double quotes, up to the closing one.  `resume` is what the lexer remembers of the
      last escape, which plays no part any more. */
  lemma {:induction false} ReadInner(cfg: Config, s: Lexer, inner: seq<Inner>, tail: string) returns (resume: State)
    requires s.state == Quoted('"') && s.chars == ""
    requires s.rest == ShownInner(inner) + ("\"" + tail) && InnerOk(inner)
    ensures Read(cfg, s) == Read(cfg, s.(rest := tail, state := Word, token := s.token + MeantInner(inner),
                                         quoted := true, resume := resume))
    decreases |inner|
  {
    hide Read, ShownInner, MeantInner, ShownOne, MeantOne, InnerOk;
    if |inner| == 0 {
      InnerEnd(cfg, s, inner, tail);
      resume := s.resume;
    } else {
      var more := ShownInner(inner[1..]) + ("\"" + tail);
      InnerParts(inner, "\"" + tail);
      var t := InnerTurn(cfg, s, inner[0], more);
      resume := ReadInner(cfg, t, inner[1..], tail);
      Concat(s.token, MeantOne(inner[0]), MeantInner(inner[1..]));
    }
  }

  lemma InnerEnd(cfg: Config, s: Lexer, inner: seq<Inner>, tail: string)
    requires s.state == Quoted('"') && s.chars == "" && |inner| == 0
    requires s.rest == ShownInner(inner) + ("\"" + tail)
    ensures MeantInner(inner) == ""
    ensures Read(cfg, s) == Read(cfg, s.(rest := tail, state := Word, token := s.token + "", quoted := true))
  {
    hide Read;
    assert s.rest == ['"'] + tail && s.token + "" == s.token;
    OneTurn(cfg, s, '"', s.(rest := tail, state := Word, quoted := true));
  }

  predicate Quotes(g: Segment) {
    g.Single? || g.Double?
  }

  /** One part of a word, read in the word state. */
  lemma ReadSegment(cfg: Config, s: Lexer, g: Segment, tail: string) returns (resume: State)
    requires Sensible(cfg) && s.state == Word && s.chars == ""
    requires s.rest == ShownSegment(g) + tail && SegmentOk(cfg, g)
    ensures Read(cfg, s) == Read(cfg, s.(rest := tail, token := s.token + MeantSegment(g),
                                         quoted := s.quoted || Quotes(g), resume := resume))
  {
    hide Read, Sensible, Going, InnerOk, ShownInner, MeantInner;
    resume := s.resume;
    match g
    case Bare(text) =>
      ReadBareText(cfg, s, text, tail);
    case Single(text) =>
      Concat("'" + text, "'", tail);
      Concat("'", text, "'" + tail);
      OpenQuote(cfg, s, '\'', text + ("'" + tail));
      ReadSingleText(cfg, s.(rest := text + ("'" + tail), state := Quoted('\'')), text, tail);
    case Double(inner) =>
      var x := ShownInner(inner);
      Concat("\"" + x, "\"", tail);
      Concat("\"", x, "\"" + tail);
      OpenQuote(cfg, s, '"', x + ("\"" + tail));
      resume := ReadInner(cfg, s.(rest := x + ("\"" + tail), state := Quoted('"')), inner, tail);
    case Escaped(c) =>
      ReadEscaped(cfg, s, c, tail);
      resume := Word;
  }

  lemma OpenQuote(cfg: Config, s: Lexer, quote: char, more: string)
    requires Sensible(cfg) && s.state == Word && s.chars == "" && s.rest == [quote] + more && IsQuote(quote)
    ensures Read(cfg, s) == Read(cfg, s.(rest := more, state := Quoted(quote)))
  {
    hide Read;
    OneTurn(cfg, s, quote, s.(rest := more, state := Quoted(quote)));
  }

  lemma ReadEscaped(cfg: Config, s: Lexer, c: char, tail: string)
    requires Sensible(cfg) && s.state == Word && s.chars == "" && s.rest == ['\\', c] + tail
    ensures Read(cfg, s) == Read(cfg, s.(rest := tail, token := s.token + [c], resume := Word))
  {
    hide Read;
    var e := s.(rest := [c] + tail, state := Escape, resume := Word);
    assert s.rest == ['\\'] + e.rest;
    OneTurn(cfg, s, '\\', e);
    assert e.token + "" + [c] == s.token + [c];
    OneTurn(cfg, e, c, e.(rest := tail, state := Word, token := s.token + [c]));
  }

  lemma WordParts(w: seq<Segment>, tail: string)
    requires |w| > 0
    ensures ShownWord(w) + tail == ShownSegment(w[0]) + (ShownWord(w[1..]) + tail)
    ensures MeantWord(w) == MeantSegment(w[0]) + MeantWord(w[1..])
    ensures HasQuotes(w) <==> Quotes(w[0]) || HasQuotes(w[1..])
  {
    hide ShownSegment, MeantSegment;
    assert forall g :: g in w <==> g == w[0] || g in w[1..];
  }

  lemma {:induction false} ReadWord(cfg: Config, s: Lexer, w: seq<Segment>, tail: string) returns (resume: State)
    requires Sensible(cfg) && s.state == Word && s.chars == ""
    requires s.rest == ShownWord(w) + tail && WordOk(cfg, w)
    ensures Read(cfg, s) == Read(cfg, s.(rest := tail, token := s.token + MeantWord(w),
                                         quoted := s.quoted || HasQuotes(w), resume := resume))
    decreases |w|
  {
    hide Read, SegmentOk, ShownSegment, MeantSegment, ShownWord, MeantWord, HasQuotes, Quotes, Sensible;
    if |w| == 0 {
      EmptyWord(w);
      Concat(tail, "", "");
      Concat(s.token, "", "");
      resume := s.resume;
    } else {
      var more := ShownWord(w[1..]) + tail;
      WordParts(w, tail);
      assert w[0] in w;
      resume := ReadSegment(cfg, s, w[0], more);
      var t := s.(rest := more, token := s.token + MeantSegment(w[0]), quoted := s.quoted || Quotes(w[0]),
                  resume := resume);
      resume := ReadWord(cfg, t, w[1..], tail);
      Concat(s.token, MeantSegment(w[0]), MeantWord(w[1..]));
    }
  }

  lemma EmptyWord(w: seq<Segment>)
    requires |w| == 0
    ensures ShownWord(w) == "" && MeantWord(w) == "" && !HasQuotes(w)
  {
  }

  // The ends of a word ----------------------------------------------------------------------------

  /** What may follow a word, or a run of punctuation, that ends here. */
  predicate Ends(cfg: Config, word: bool, tail: string) {
    || |tail| == 0 || IsWhite(tail[0]) || tail[0] in cfg.commenters
    || (cfg.punctuation != {} && !IsQuote(tail[0]) && tail[0] != ESCAPE
        && if word then !Going(cfg, tail[0]) else tail[0] !in cfg.punctuation)
  }

  /** Where the lexer stands then: a blank is gone, so is a comment up to the end of its line, and any
      other character has been read one too far. */
  function Behind(cfg: Config, tail: string): Lexer {
    if |tail| == 0 then Start("").(state := End)
    else if IsWhite(tail[0]) then Start(tail[1..])
    else if tail[0] in cfg.commenters then Start(AfterLine(tail[1..]))
    else Start(tail[1..]).(chars := [tail[0]])
  }

  lemma ReadEnd(cfg: Config, s: Lexer)
    requires (s.state == Word || s.state == Punct) && s.chars == "" && s.tokens == []
    requires (s.token != "" || s.quoted) && (s.state == Punct ==> s.token != "")
    requires Ends(cfg, s.state == Word, s.rest)
    ensures var r := Read(cfg, s);
      r.Token? && r.token == Some(s.token) && Next(r.lexer) == Behind(cfg, s.rest)
  {
    hide Read;
    ReadOn(cfg, s);
    if |s.rest| > 0 {
      assert s.chars + [s.rest[0]] == [s.rest[0]];
    }
  }

  // From blank to word ----------------------------------------------------------------------------

  /** A word may start with this part: bare text starts with a word character. */
  predicate Starts(cfg: Config, g: Segment) {
    g.Bare? ==> |g.text| > 0 && (g.text[0] in cfg.wordchars || g.text[0] !in cfg.punctuation)
  }

  /** The first character of a word is read as if the word had begun. */
  lemma ReadStart(cfg: Config, x: string)
    requires Sensible(cfg) && |x| > 0
    requires IsQuote(x[0]) || x[0] == ESCAPE
             || (Going(cfg, x[0]) && (x[0] in cfg.wordchars || x[0] !in cfg.punctuation))
    ensures Read(cfg, Start(x)) == Read(cfg, Start(x).(state := Word))
  {
    hide Read;
    var s := Start(x);
    var t := s.(state := Word);
    assert "" + [x[0]] == [x[0]];
    assert Turn(cfg, s) == Turn(cfg, t);
    ReadOn(cfg, s);
    ReadOn(cfg, t);
  }

  /** Quotes and escapes go on from punctuation as they do from a word. */
  lemma ReadSwitch(cfg: Config, s: Lexer)
    requires s.state == Punct && s.chars == "" && |s.rest| > 0 && (IsQuote(s.rest[0]) || s.rest[0] == ESCAPE)
    requires Sensible(cfg)
    ensures Read(cfg, s) == Read(cfg, s.(state := Word))
  {
    hide Read;
    var t := s.(state := Word);
    assert Turn(cfg, s) == Turn(cfg, t) by {
      assert !IsWhite(s.rest[0]);
    }
    ReadOn(cfg, s);
    ReadOn(cfg, t);
  }

  /** What the lexer pushed back is read like any other text. */
  lemma ReadPushed(cfg: Config, s: Lexer, x: string)
    requires Between(s, x) && |x| > 0 && (cfg.punctuation == {} ==> s.chars == "")
    ensures Read(cfg, s) == Read(cfg, Start(x))
  {
    hide Read;
    if s.chars == "" {
      Concat(s.rest, "", "");
      assert s == Start(x);
    } else {
      assert x == [x[0]] + x[1..];
      TakeChar(cfg, s, x[0], x[1..]);
      assert Turn(cfg, s) == Turn(cfg, Start(x));
      ReadOn(cfg, s);
      ReadOn(cfg, Start(x));
    }
  }

  // Punctuation -----------------------------------------------------------------------------------

  predicate RunOk(cfg: Config, x: string) {
    forall c | c in x :: c in cfg.punctuation && c !in cfg.commenters
  }

  lemma {:induction false} ReadRest(cfg: Config, s: Lexer, x: string, tail: string)
    requires Sensible(cfg) && s.state == Punct && s.chars == "" && s.rest == x + tail && RunOk(cfg, x)
    ensures Read(cfg, s) == Read(cfg, s.(rest := tail, token := s.token + x))
    decreases |x|
  {
    hide Read;
    if |x| == 0 {
      Concat(tail, "", "");
      Concat(s.token, "", "");
    } else {
      var t := s.(rest := x[1..] + tail, token := s.token + [x[0]]);
      assert x[0] in x && s.rest == [x[0]] + t.rest;
      assert forall c | c in x[1..] :: c in x;
      OneTurn(cfg, s, x[0], t);
      ReadRest(cfg, t, x[1..], tail);
      assert t.token + x[1..] == s.token + x;
    }
  }

  /** A run of punctuation starts with a character that is no word character as well. */
  lemma ReadRun(cfg: Config, x: string, tail: string)
    requires Sensible(cfg) && RunOk(cfg, x) && |x| > 0 && x[0] !in cfg.wordchars
    ensures Read(cfg, Start(x + tail)) == Read(cfg, Start(tail).(state := Punct, token := x))
  {
    hide Read;
    var s := Start(x + tail);
    var t := s.(rest := x[1..] + tail, state := Punct, token := [x[0]]);
    assert x[0] in x && s.rest == [x[0]] + t.rest;
    assert forall c | c in x[1..] :: c in x;
    OneTurn(cfg, s, x[0], t);
    ReadRest(cfg, t, x[1..], tail);
    assert [x[0]] + x[1..] == x;
  }

  // Tokens ----------------------------------------------------------------------------------------

  /** A token: a word, a run of punctuation, a run that a quote or an escape joins to a word, or a
      character of no class. */
  datatype Item = Item(run: string, word: seq<Segment>) | Odd(c: char)

  function ShownItem(it: Item): string {
    match it
    case Item(run, word) => run + ShownWord(word)
    case Odd(c) => [c]
  }

  function MeantItem(it: Item): string {
    match it
    case Item(run, word) => run + MeantWord(word)
    case Odd(c) => [c]
  }

  predicate ItemOk(cfg: Config, it: Item) {
    match it
    case Item(run, word) =>
      && RunOk(cfg, run) && WordOk(cfg, word) && (|run| > 0 || |word| > 0)
      && (if |run| > 0 then run[0] !in cfg.wordchars && (|word| > 0 ==> !word[0].Bare?) else Starts(cfg, word[0]))
    case Odd(c) =>
      && !IsWhite(c) && !IsQuote(c) && c != ESCAPE && !cfg.whitespaceSplit
      && c !in cfg.commenters && c !in cfg.wordchars && c !in cfg.punctuation
  }

  /** What may follow the token. */
  predicate Followed(cfg: Config, it: Item, tail: string) {
    it.Odd? || Ends(cfg, |it.word| > 0, tail)
  }

  function After(cfg: Config, it: Item, tail: string): Lexer {
    if it.Odd? then Start(tail) else Behind(cfg, tail)
  }

  lemma WordVisible(cfg: Config, w: seq<Segment>)
    requires WordOk(cfg, w) && |w| > 0
    ensures MeantWord(w) != "" || HasQuotes(w)
  {
    assert w[0] in w;
  }

  lemma WordFirst(cfg: Config, w: seq<Segment>, tail: string)
    requires Sensible(cfg) && WordOk(cfg, w) && |w| > 0
    ensures var x := ShownWord(w) + tail;
      && |x| > 0
      && (!w[0].Bare? ==> IsQuote(x[0]) || x[0] == ESCAPE)
      && (w[0].Bare? ==> |w[0].text| > 0 && x[0] == w[0].text[0] && Going(cfg, x[0]))
  {
    hide Sensible, ShownInner;
    WordParts(w, tail);
    assert w[0] in w;
    assert w[0].Bare? ==> w[0].text[0] in w[0].text;
  }

  /** One token, read from any place between two calls. */
  lemma ReadItem(cfg: Config, s: Lexer, it: Item, tail: string)
    requires Sensible(cfg) && Between(s, ShownItem(it) + tail) && (cfg.punctuation == {} ==> s.chars == "")
    requires ItemOk(cfg, it) && Followed(cfg, it, tail)
    ensures var r := Read(cfg, s);
      r.Token? && r.token == Some(MeantItem(it)) && Next(r.lexer) == After(cfg, it, tail)
  {
    hide Read, Sensible, Going, RunOk, WordOk, Starts, Ends, Behind, ShownWord, MeantWord;
    match it
    case Odd(c) =>
      ReadPushed(cfg, s, [c] + tail);
      ReadOdd(cfg, c, tail);
    case Item(run, word) =>
      if |run| == 0 {
        WordFirst(cfg, word, tail);
        Concat(ShownWord(word), "", "");
        ReadPushed(cfg, s, ShownWord(word) + tail);
        WordAlone(cfg, word, tail);
        Concat(MeantWord(word), "", "");
      } else {
        Concat(run, ShownWord(word), tail);
        ReadPushed(cfg, s, run + (ShownWord(word) + tail));
        RunFirst(cfg, run, word, tail);
      }
  }

  lemma ReadOdd(cfg: Config, c: char, tail: string)
    requires ItemOk(cfg, Odd(c))
    ensures var r := Read(cfg, Start([c] + tail));
      r.Token? && r.token == Some([c]) && Next(r.lexer) == Start(tail)
  {
    hide Read;
    var s := Start([c] + tail);
    assert s.rest[1..] == tail;
    ReadOn(cfg, s);
  }

  lemma WordAlone(cfg: Config, word: seq<Segment>, tail: string)
    requires Sensible(cfg) && WordOk(cfg, word) && |word| > 0 && Starts(cfg, word[0]) && Ends(cfg, true, tail)
    ensures var r := Read(cfg, Start(ShownWord(word) + tail));
      r.Token? && r.token == Some(MeantWord(word)) && Next(r.lexer) == Behind(cfg, tail)
  {
    hide Read, Sensible, Going, WordOk, Ends, Behind, ShownWord, MeantWord, HasQuotes;
    var x := ShownWord(word) + tail;
    WordFirst(cfg, word, tail);
    ReadStart(cfg, x);
    var resume := ReadWord(cfg, Start(x).(state := Word), word, tail);
    WordVisible(cfg, word);
    Concat(MeantWord(word), "", "");
    ReadEnd(cfg, Start(tail).(state := Word, token := MeantWord(word), quoted := HasQuotes(word), resume := resume));
  }

  lemma RunFirst(cfg: Config, run: string, word: seq<Segment>, tail: string)
    requires Sensible(cfg) && RunOk(cfg, run) && WordOk(cfg, word) && |run| > 0 && run[0] !in cfg.wordchars
    requires (|word| > 0 ==> !word[0].Bare?) && Ends(cfg, |word| > 0, tail)
    ensures var r := Read(cfg, Start(run + (ShownWord(word) + tail)));
      r.Token? && r.token == Some(run + MeantWord(word)) && Next(r.lexer) == Behind(cfg, tail)
  {
    hide Read, Sensible, Going, RunOk, WordOk, Ends, Behind, ShownWord, MeantWord, HasQuotes;
    ReadRun(cfg, run, ShownWord(word) + tail);
    if |word| == 0 {
      EmptyWord(word);
      Concat(tail, "", "");
      Concat(run, "", "");
      ReadEnd(cfg, Start(tail).(state := Punct, token := run));
    } else {
      var s := Start(ShownWord(word) + tail).(state := Punct, token := run);
      WordFirst(cfg, word, tail);
      ReadSwitch(cfg, s);
      var resume := ReadWord(cfg, s.(state := Word), word, tail);
      Longer(run, MeantWord(word));
      ReadEnd(cfg, Start(tail).(state := Word, token := run + MeantWord(word), quoted := HasQuotes(word),
                                resume := resume));
    }
  }

  lemma Longer(a: string, b: string)
    requires |a| > 0
    ensures a + b != ""
  {
    assert |a + b| > 0;
  }

  // Lines -----------------------------------------------------------------------------------------

  /** What a line consists of: tokens, single blanks, comments with the end of their line, and at most one
      comment that the input ends in. */
  datatype Piece = Tok(item: Item) | Blank(c: char) | Remark(mark: char, text: string) | Last(mark: char, text: string)

  function ShownPiece(e: Piece): string {
    match e
    case Tok(it) => ShownItem(it)
    case Blank(c) => [c]
    case Remark(mark, text) => [mark] + text + "\n"
    case Last(mark, text) => [mark] + text
  }

  function ShownLine(es: seq<Piece>): string {
    if |es| == 0 then "" else ShownPiece(es[0]) + ShownLine(es[1..])
  }

  /** The tokens of the line, and nothing else. */
  function MeantLine(es: seq<Piece>): seq<string> {
    if |es| == 0 then []
    else (if es[0].Tok? then [MeantItem(es[0].item)] else []) + MeantLine(es[1..])
  }

  predicate PieceOk(cfg: Config, e: Piece, tail: string) {
    match e
    case Tok(it) => ItemOk(cfg, it) && Followed(cfg, it, tail)
    case Blank(c) => IsWhite(c)
    case Remark(mark, text) => mark in cfg.commenters && '\n' !in text
    case Last(mark, text) => mark in cfg.commenters && '\n' !in text && tail == ""
  }

  predicate LineOk(cfg: Config, es: seq<Piece>) {
    |es| == 0 || (PieceOk(cfg, es[0], ShownLine(es[1..])) && LineOk(cfg, es[1..]))
  }

  lemma {:induction false} AfterLineIs(text: string, more: string)
    requires '\n' !in text
    ensures AfterLine(text + "\n" + more) == more && AfterLine(text) == ""
  {
    if |text| > 0 {
      AfterLineIs(text[1..], more);
      assert (text + "\n" + more)[1..] == text[1..] + "\n" + more;
    } else {
      assert text + "\n" + more == "\n" + more;
    }
  }

  /** A blank between two calls is passed over, and so is a comment, up to the end of its line. */
  lemma SkipPiece(cfg: Config, s: Lexer, e: Piece, tail: string)
    requires Sensible(cfg) && Between(s, ShownPiece(e) + tail) && (cfg.punctuation == {} ==> s.chars == "")
    requires !e.Tok? && PieceOk(cfg, e, tail)
    ensures Read(cfg, s) == Read(cfg, Start(tail))
  {
    hide Read, Sensible, ShownPiece, PieceOk;
    var x := ShownPiece(e) + tail;
    GapGone(cfg, e, tail);
    ReadPushed(cfg, s, x);
    GapTurn(cfg, e, tail);
    ReadOn(cfg, Start(x));
  }

  lemma GapTurn(cfg: Config, e: Piece, tail: string)
    requires Sensible(cfg) && !e.Tok? && PieceOk(cfg, e, tail)
    ensures Turn(cfg, Start(ShownPiece(e) + tail)) == Continue(Start(tail))
  {
    var x := ShownPiece(e) + tail;
    match e
    case Tok(_) =>
    case Blank(c) =>
      assert x[1..] == tail;
    case Remark(mark, text) =>
      assert x[1..] == text + "\n" + tail;
      AfterLineIs(text, tail);
    case Last(mark, text) =>
      assert x[1..] == text;
      AfterLineIs(text, "");
  }

  /** The pieces that are still to be read when the token in front of them has been. */
  function Dropped(it: Item, es: seq<Piece>): seq<Piece> {
    if it.Item? && |es| > 0 && !es[0].Tok? then es[1..] else es
  }

  lemma LineAfter(cfg: Config, it: Item, es: seq<Piece>)
    requires Sensible(cfg) && LineOk(cfg, es) && Followed(cfg, it, ShownLine(es))
    ensures var t := After(cfg, it, ShownLine(es));
      && Between(t, ShownLine(Dropped(it, es))) && (cfg.punctuation == {} ==> t.chars == "")
      && LineOk(cfg, Dropped(it, es)) && MeantLine(Dropped(it, es)) == MeantLine(es)
  {
    hide Sensible, ShownItem, ItemOk;
    var x := ShownLine(es);
    if it.Odd? {
      Concat(x, "", "");
    } else if |es| > 0 {
      var tail := ShownLine(es[1..]);
      Concat(tail, "", "");
      if es[0].Tok? {
        ItemFirst(cfg, es[0].item, tail);
        assert [x[0]] + x[1..] == x;
      } else {
        GapGone(cfg, es[0], tail);
      }
    }
  }

  lemma GapGone(cfg: Config, e: Piece, tail: string)
    requires Sensible(cfg) && !e.Tok? && PieceOk(cfg, e, tail)
    ensures var x := ShownPiece(e) + tail; |x| > 0 && Behind(cfg, x) == Start(tail)
  {
    hide Sensible;
    var x := ShownPiece(e) + tail;
    match e
    case Tok(_) =>
    case Blank(c) =>
      assert x[1..] == tail;
    case Remark(mark, text) =>
      assert x[1..] == text + "\n" + tail;
      NotWhite(cfg, mark);
      AfterLineIs(text, tail);
    case Last(mark, text) =>
      assert x[1..] == text;
      NotWhite(cfg, mark);
      AfterLineIs(text, "");
  }

  lemma NotWhite(cfg: Config, c: char)
    requires Sensible(cfg) && (c in cfg.commenters || c in cfg.wordchars || c in cfg.punctuation)
    ensures !IsWhite(c)
  {
  }

  lemma ItemFirst(cfg: Config, it: Item, tail: string)
    requires Sensible(cfg) && ItemOk(cfg, it)
    ensures var x := ShownItem(it) + tail; |x| > 0 && !IsWhite(x[0]) && x[0] !in cfg.commenters
  {
    hide ShownWord;
    if it.Item? && |it.run| > 0 {
      assert it.run[0] in it.run;
    } else if it.Item? {
      WordFirst(cfg, it.word, tail);
    }
  }

  /** Every line that is put together in this way is read back as its tokens. */
  lemma {:induction false} LineIsRead(cfg: Config, s: Lexer, es: seq<Piece>)
    requires Sensible(cfg) && Between(s, ShownLine(es)) && (cfg.punctuation == {} ==> s.chars == "") && LineOk(cfg, es)
    ensures AllTokens(cfg, s) == Tokens(MeantLine(es))
    decreases |es|
  {
    hide Read, Sensible, PieceOk, ItemOk, Followed, After, ShownPiece, MeantItem, Between;
    if |es| == 0 {
      NothingLeft(cfg, s);
    } else {
      var tail := ShownLine(es[1..]);
      if es[0].Tok? {
        LineToken(cfg, s, es);
        var it := es[0].item;
        LineIsRead(cfg, After(cfg, it, tail), Dropped(it, es[1..]));
      } else {
        SkipPiece(cfg, s, es[0], tail);
        StartAt(tail);
        Passed(cfg, s, ShownLine(es), Start(tail));
        LineIsRead(cfg, Start(tail), es[1..]);
      }
    }
  }

  lemma NothingLeft(cfg: Config, s: Lexer)
    requires Between(s, "")
    ensures AllTokens(cfg, s) == Tokens([])
  {
    EndOfInput(cfg, s);
  }

  lemma StartAt(x: string)
    ensures Between(Start(x), x) && Start(x).chars == ""
  {
    Concat(x, "", "");
  }

  lemma Passed(cfg: Config, s: Lexer, x: string, t: Lexer)
    requires Between(s, x) && t.tokens == [] && Fresh(t) && Read(cfg, s) == Read(cfg, t)
    ensures AllTokens(cfg, s) == AllTokens(cfg, t)
  {
    SameTokens(cfg, s, t);
  }

  lemma LineToken(cfg: Config, s: Lexer, es: seq<Piece>)
    requires Sensible(cfg) && Between(s, ShownLine(es)) && (cfg.punctuation == {} ==> s.chars == "") && LineOk(cfg, es)
    requires |es| > 0 && es[0].Tok?
    ensures var it := es[0].item;
      var t := After(cfg, it, ShownLine(es[1..]));
      && Sane(cfg, t) && Between(t, ShownLine(Dropped(it, es[1..]))) && (cfg.punctuation == {} ==> t.chars == "")
      && LineOk(cfg, Dropped(it, es[1..])) && |Dropped(it, es[1..])| < |es|
      && AllTokens(cfg, s) == Prepend(MeantItem(it), AllTokens(cfg, t))
      && MeantLine(es) == [MeantItem(it)] + MeantLine(Dropped(it, es[1..]))
  {
    hide Read, Sensible, ItemOk, Followed, After, ShownItem, MeantItem;
    var it, tail := es[0].item, ShownLine(es[1..]);
    ReadItem(cfg, s, it, tail);
    LineAfter(cfg, it, es[1..]);
    AllFirst(cfg, s);
  }

  /** The lexers that occur: that of the shell, that of `punctuation_chars=True`, and those of `split`. */
  lemma ConfigsSensible(comments: bool)
    ensures Sensible(SHELL_CONFIG) && Sensible(PUNCTUATION_CONFIG) && Sensible(SplitConfig(comments))
  {
    ShellSensible();
    hide SHELL_CONFIG;
    var shell := SHELL_CONFIG;
    assert PUNCTUATION_CONFIG.wordchars <= shell.wordchars && PUNCTUATION_CONFIG.punctuation == shell.punctuation
        && PUNCTUATION_CONFIG.commenters == shell.commenters && LETTERS <= shell.wordchars by {
      ShellLarger();
    }
  }

  lemma ShellSensible()
    ensures Sensible(SHELL_CONFIG)
  {
    hide SHELL_CONFIG;
    forall c | IsWhite(c) || IsQuote(c) || c == ESCAPE
      ensures c !in SHELL_CONFIG.commenters && c !in SHELL_CONFIG.wordchars && c !in SHELL_CONFIG.punctuation
    {
      ShellClasses(c);
    }
  }

  lemma ShellLarger()
    ensures PUNCTUATION_CONFIG.wordchars <= SHELL_CONFIG.wordchars && LETTERS <= SHELL_CONFIG.wordchars
    ensures PUNCTUATION_CONFIG.punctuation == SHELL_CONFIG.punctuation
    ensures PUNCTUATION_CONFIG.commenters == SHELL_CONFIG.commenters
  {
    hide LETTERS;
  }

  lemma ShellLineIsRead(es: seq<Piece>)
    requires LineOk(SHELL_CONFIG, es)
    ensures AllTokens(SHELL_CONFIG, Start(ShownLine(es))) == Tokens(MeantLine(es))
  {
    hide Sensible, SHELL_CONFIG;
    ConfigsSensible(true);
    StartAt(ShownLine(es));
    LineIsRead(SHELL_CONFIG, Start(ShownLine(es)), es);
  }

  lemma SplitLineIsRead(comments: bool, es: seq<Piece>)
    requires LineOk(SplitConfig(comments), es)
    ensures AllTokens(SplitConfig(comments), Start(ShownLine(es))) == Tokens(MeantLine(es))
  {
    hide Sensible, SplitConfig;
    ConfigsSensible(comments);
    StartAt(ShownLine(es));
    LineIsRead(SplitConfig(comments), Start(ShownLine(es)), es);
  }

  // Unfinished words ------------------------------------------------------------------------------

  /** How the input may break off: in single or double quotes, behind a backslash, or behind one inside
      double quotes. */
  datatype Break = InSingle(text: string) | InDouble(inner: seq<Inner>) | Slash | SlashInDouble(inner: seq<Inner>)

  function ShownBreak(b: Break): string {
    match b
    case InSingle(text) => "'" + text
    case InDouble(inner) => "\"" + ShownInner(inner)
    case Slash => "\\"
    case SlashInDouble(inner) => "\"" + (ShownInner(inner) + "\\")
  }

  predicate BreakOk(b: Break) {
    match b
    case InSingle(text) => '\'' !in text
    case InDouble(inner) => InnerOk(inner)
    case Slash => true
    case SlashInDouble(inner) => InnerOk(inner)
  }

  function BreakError(b: Break): LexError {
    if b.InSingle? || b.InDouble? then NoClosingQuotation else NoEscapedCharacter
  }

  predicate Fails(cfg: Config, s: Lexer, e: LexError) {
    Read(cfg, s).Failed? && Read(cfg, s).error == e
  }

  lemma {:induction false} BreakInSingle(cfg: Config, s: Lexer)
    requires s.state == Quoted('\'') && s.chars == "" && '\'' !in s.rest
    ensures Fails(cfg, s, NoClosingQuotation)
    decreases |s.rest|
  {
    hide Read;
    ReadOn(cfg, s);
    if |s.rest| > 0 {
      BreakInSingle(cfg, s.(rest := s.rest[1..], token := s.token + [s.rest[0]], quoted := true));
    }
  }

  lemma {:induction false} BreakInDouble(cfg: Config, s: Lexer, inner: seq<Inner>, slash: bool)
    requires s.state == Quoted('"') && s.chars == "" && InnerOk(inner)
    requires s.rest == ShownInner(inner) + if slash then "\\" else ""
    ensures Fails(cfg, s, if slash then NoEscapedCharacter else NoClosingQuotation)
    decreases |inner|
  {
    hide Read, ShownInner, ShownOne, InnerOk;
    var end := if slash then "\\" else "";
    if |inner| == 0 {
      NoInner(inner, end);
      ReadOn(cfg, s);
      if slash {
        var e := s.(rest := "", state := Escape, quoted := true, resume := s.state);
        assert s.rest[1..] == "";
        ReadOn(cfg, e);
      }
    } else {
      InnerParts(inner, end);
      var t := InnerTurn(cfg, s, inner[0], ShownInner(inner[1..]) + end);
      BreakInDouble(cfg, t, inner[1..], slash);
    }
  }

  lemma NoInner(inner: seq<Inner>, end: string)
    requires |inner| == 0
    ensures ShownInner(inner) + end == end
  {
  }

  /** A word that breaks off raises, whatever stands in front of the break. */
  lemma BreaksOff(cfg: Config, s: Lexer, w: seq<Segment>, b: Break)
    requires Sensible(cfg) && s.state == Word && s.chars == ""
    requires s.rest == ShownWord(w) + ShownBreak(b) && WordOk(cfg, w) && BreakOk(b)
    ensures Fails(cfg, s, BreakError(b))
  {
    hide Read, Sensible, ShownWord, WordOk, MeantWord, HasQuotes, ShownInner, InnerOk;
    var resume := ReadWord(cfg, s, w, ShownBreak(b));
    var t := s.(rest := ShownBreak(b), token := s.token + MeantWord(w), quoted := s.quoted || HasQuotes(w),
                resume := resume);
    match b
    case InSingle(text) =>
      OpenQuote(cfg, t, '\'', text);
      BreakInSingle(cfg, t.(rest := text, state := Quoted('\'')));
    case InDouble(inner) =>
      OpenQuote(cfg, t, '"', ShownInner(inner));
      Concat(ShownInner(inner), "", "");
      BreakInDouble(cfg, t.(rest := ShownInner(inner), state := Quoted('"')), inner, false);
    case Slash =>
      BreakAtSlash(cfg, t);
    case SlashInDouble(inner) =>
      OpenQuote(cfg, t, '"', ShownInner(inner) + "\\");
      BreakInDouble(cfg, t.(rest := ShownInner(inner) + "\\", state := Quoted('"')), inner, true);
  }

  lemma BreakAtSlash(cfg: Config, s: Lexer)
    requires Sensible(cfg) && s.state == Word && s.chars == "" && s.rest == "\\"
    ensures Fails(cfg, s, NoEscapedCharacter)
  {
    hide Read;
    assert s.rest[1..] == "";
    ReadOn(cfg, s);
    ReadOn(cfg, s.(rest := "", state := Escape, resume := Word));
  }

  // Words alone -----------------------------------------------------------------------------------

  /** A text that is one word gives one token, so in particular double-quoted text does, with every
      backslash that stands before neither a double quote nor a backslash. */
  lemma OneWordIsRead(cfg: Config, w: seq<Segment>)
    requires Sensible(cfg) && WordOk(cfg, w) && |w| > 0 && Starts(cfg, w[0])
    ensures AllTokens(cfg, Start(ShownWord(w))) == Tokens([MeantWord(w)])
  {
    hide Read, Sensible, ShownWord, MeantWord, WordOk, Starts;
    Concat(ShownWord(w), "", "");
    WordAlone(cfg, w, "");
    StartAt(ShownWord(w));
    AllFirst(cfg, Start(ShownWord(w)));
    EndOfInput(cfg, Start("").(state := End));
  }

  lemma DoubleQuotedIsRead(cfg: Config, inner: seq<Inner>)
    requires Sensible(cfg) && InnerOk(inner)
    ensures AllTokens(cfg, Start("\"" + ShownInner(inner) + "\"")) == Tokens([MeantInner(inner)])
  {
    hide Sensible, ShownInner, MeantInner, InnerOk;
    var w := [Double(inner)];
    assert w[1..] == [];
    Concat("\"" + ShownInner(inner) + "\"", "", "");
    Concat(MeantInner(inner), "", "");
    assert ShownWord(w) == ShownSegment(w[0]) + "" && MeantWord(w) == MeantSegment(w[0]) + "";
    OneWordIsRead(cfg, w);
  }

  /** `"\x41"` keeps its backslash. */
  lemma BackslashStays(cfg: Config)
    requires Sensible(cfg)
    ensures AllTokens(cfg, Start("\"" + "\\x41" + "\"")) == Tokens(["\\x41"])
  {
    hide Sensible;
    var one, two, inner := [Plain('1')], [Plain('4'), Plain('1')], [Slashed('x'), Plain('4'), Plain('1')];
    assert one[1..] == [] && two[1..] == one && inner[1..] == two;
    assert ShownInner(one) == "1" && ShownInner(two) == "41" && MeantInner(one) == "1" && MeantInner(two) == "41";
    assert ShownInner(inner) == "\\x41" && MeantInner(inner) == "\\x41";
    DoubleQuotedIsRead(cfg, inner);
  }

  /** Without punctuation characters, a character that ends a word is a token of its own, which the lexer
      keeps for the next call. */
  lemma WordThenOdd(cfg: Config, w: seq<Segment>, c: char, tail: string)
    requires Sensible(cfg) && cfg.punctuation == {} && WordOk(cfg, w) && |w| > 0 && Starts(cfg, w[0])
    requires ItemOk(cfg, Odd(c))
    ensures AllTokens(cfg, Start(ShownWord(w) + ([c] + tail))) ==
      Prepend(MeantWord(w), Prepend([c], AllTokens(cfg, Start(tail))))
  {
    hide Read, Sensible, ShownWord, MeantWord, WordOk, Starts, HasQuotes;
    var x := ShownWord(w) + ([c] + tail);
    WordFirst(cfg, w, [c] + tail);
    ReadStart(cfg, x);
    var resume := ReadWord(cfg, Start(x).(state := Word), w, [c] + tail);
    WordVisible(cfg, w);
    Concat(MeantWord(w), "", "");
    var s := Start([c] + tail).(state := Word, token := MeantWord(w), quoted := HasQuotes(w), resume := resume);
    KeptForLater(cfg, s, c, tail);
    AllFirst(cfg, Start(x));
    assert [[c]][1..] == [];
    assert AllTokens(cfg, Start(tail).(tokens := [[c]])) == Prepend([c], AllTokens(cfg, Start(tail)));
  }

  lemma KeptForLater(cfg: Config, s: Lexer, c: char, tail: string)
    requires cfg.punctuation == {} && s.state == Word && s.chars == "" && s.tokens == [] && (s.token != "" || s.quoted)
    requires s.rest == [c] + tail && ItemOk(cfg, Odd(c))
    ensures Read(cfg, s).Token? && Read(cfg, s).token == Some(s.token)
    ensures Next(Read(cfg, s).lexer) == Start(tail).(tokens := [[c]])
  {
    hide Read;
    assert s.rest[1..] == tail && [[c]] + s.tokens == [[c]];
    ReadOn(cfg, s);
  }
}
