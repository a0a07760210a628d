/** Passive fingerprints in `OSfooler/osfooler_ng/module_p0f.py`: the options and the window that
    `p0f_impersonate` gives a packet, the text that `packet2p0f` makes of them, and the points that
    `p0f_correl` awards. */
module P0f {
  import opened Options
  import opened Numerals
  import opened PyStrings

  /** `Other` is an option known by its number only. */
  datatype TcpOption = MSS(n: nat) | WScale(n: nat) | Timestamp(a: nat, b: nat) | SAckOK | NOP | EOL | Other(kind: nat)

  /** The numbers of the six options that are shown by a letter, in that order: RFC 793, RFC 7323, RFC 2018. */
  const LETTERED_KINDS: set<nat> := {2, 3, 8, 4, 1, 0}

  const MAX_16 := 0xFFFF

  // packet2p0f ------------------------------------------------------------------------------------

  function Shown(o: TcpOption): string {
    match o
    case MSS(n) => "M" + Decimal(n)
    case WScale(n) => "W" + Decimal(n)
    case Timestamp(a, _) => if a == 0 then "T0" else "T"
    case SAckOK => "S"
    case NOP => "N"
    case EOL => "E"
    case Other(kind) => "?" + Decimal(kind)
  }

  function ShownAll(os: seq<TcpOption>): (r: seq<string>)
    ensures |r| == |os|
  {
    seq(|os|, i requires 0 <= i < |os| => Shown(os[i]))
  }

  function OptionText(os: seq<TcpOption>): string {
    if |os| == 0 then "." else Join(ShownAll(os), ',')
  }

  /** The last MSS, or -1. */
  function LastMss(os: seq<TcpOption>): (r: int)
    ensures r >= -1
  {
    if |os| == 0 then -1
    else if os[|os| - 1].MSS? then os[|os| - 1].n
    else LastMss(os[..|os| - 1])
  }

  function WindowText(win: nat, mss: int): string
    requires mss >= -1
  {
    if mss > 0 && win % mss == 0 then "S" + Decimal(win / mss)
    else if mss != -1 && win % (mss + 40) == 0 then "T" + Decimal(win / (mss + 40))
    else Decimal(win)
  }

  /** The options so far, each with a comma behind it. */
  function Listed(os: seq<TcpOption>): string {
    if |os| == 0 then "" else Join(ShownAll(os), ',') + ","
  }

  function Size(o: TcpOption): nat {
    match o
    case MSS(_) => 4
    case WScale(_) => 3
    case Timestamp(_, _) => 10
    case SAckOK => 2
    case _ => 1
  }

  /** The bytes that the options take up, as far as they are counted. */
  function Taken(os: seq<TcpOption>): nat {
    if |os| == 0 then 0
    else
      var n := |os| - 1;
      Taken(os[..n]) + Size(os[n])
  }

  /** A timestamp that echoes another one. */
  predicate Echoes(os: seq<TcpOption>) {
    exists o :: o in os && o.Timestamp? && o.b != 0
  }

  /** An end of options with bytes behind it, where `space` are there in all. */
  predicate Padded(os: seq<TcpOption>, space: int) {
    exists i :: 0 <= i < |os| && os[i] == EOL && Taken(os[..i + 1]) < space
  }

  /** The texts of options and window, and the quirks 'T' and 'P'. */
  method Render(os: seq<TcpOption>, win: nat, dataofs: nat)
      returns (options: string, window: string, quirkT: bool, quirkP: bool)
    ensures options == OptionText(os) && window == WindowText(win, LastMss(os))
    ensures quirkT == Echoes(os) && quirkP == Padded(os, 4 * dataofs - 20)
  {
    hide Shown, WindowText, Join, Listed, LastMss, Taken, Echoes, Padded;
    var ooo := "";
    var mss: int := -1;
    var left := 4 * dataofs - 20;
    quirkT, quirkP := false, false;
    RenderNone(left);
    for i := 0 to |os|
      invariant mss == LastMss(os[..i]) && ooo == Listed(os[..i])
      invariant left == 4 * dataofs - 20 - Taken(os[..i])
      invariant quirkT == Echoes(os[..i]) && quirkP == Padded(os[..i], 4 * dataofs - 20)
    {
      RenderStep(os, i);
      QuirkStep(os, i, 4 * dataofs - 20);
      ooo := ooo + Shown(os[i]) + ",";
      left := left - 1;
      match os[i] {
        case MSS(n) =>
          mss := n;
          left := left - 3;
        case WScale(_) => left := left - 2;
        case Timestamp(_, echo) =>
          if echo != 0 {
            quirkT := true;
          }
          left := left - 9;
        case SAckOK => left := left - 1;
        case NOP =>
        case EOL =>
          if left > 0 {
            quirkP := true;
          }
        case Other(_) =>
      }
    }
    assert os[..|os|] == os;
    ListedText(os);
    options := if |ooo| == 0 then "." else ooo[..|ooo| - 1];
    window := WindowText(win, mss);
  }

  lemma QuirkStep(os: seq<TcpOption>, i: nat, space: int)
    requires i < |os|
    ensures Taken(os[..i + 1]) == Taken(os[..i]) + Size(os[i])
    ensures Echoes(os[..i + 1]) == (Echoes(os[..i]) || (os[i].Timestamp? && os[i].b != 0))
    ensures Padded(os[..i + 1], space) == (Padded(os[..i], space) || (os[i] == EOL && Taken(os[..i + 1]) < space))
  {
    hide Taken;
    TakenStep(os, i);
    var now, was := os[..i + 1], os[..i];
    assert now == was + [os[i]];
    forall k | 0 <= k < i ensures now[..k + 1] == was[..k + 1] && now[k] == was[k] {
    }
    assert now[..i + 1] == now && now[i] == os[i];
    if Padded(was, space) {
      var k :| 0 <= k < i && was[k] == EOL && Taken(was[..k + 1]) < space;
      assert now[k] == EOL && Taken(now[..k + 1]) < space;
    }
  }

  lemma TakenStep(os: seq<TcpOption>, i: nat)
    requires i < |os|
    ensures Taken(os[..i + 1]) == Taken(os[..i]) + Size(os[i])
  {
    assert os[..i + 1][..i] == os[..i];
  }

  lemma RenderNone(space: int)
    ensures Listed([]) == "" && LastMss([]) == -1 && Taken([]) == 0
    ensures !Echoes([]) && !Padded([], space)
  {
  }

  lemma RenderStep(os: seq<TcpOption>, i: nat)
    requires i < |os|
    ensures Listed(os[..i + 1]) == Listed(os[..i]) + Shown(os[i]) + ","
    ensures LastMss(os[..i + 1]) == if os[i].MSS? then os[i].n else LastMss(os[..i])
  {
    hide Shown;
    assert os[..i + 1][..i] == os[..i];
    JoinSnoc(ShownAll(os[..i]), Shown(os[i]));
    assert ShownAll(os[..i + 1]) == ShownAll(os[..i]) + [Shown(os[i])];
  }

  lemma ListedText(os: seq<TcpOption>)
    ensures if |os| == 0 then Listed(os) == "" else |Listed(os)| > 0 && Listed(os)[..|Listed(os)| - 1] == OptionText(os)
  {
  }

  lemma {:induction false} JoinSnoc(parts: seq<string>, last: string)
    ensures Join(parts + [last], ',') == if |parts| == 0 then last else Join(parts, ',') + "," + last
  {
    if |parts| == 0 {
      assert parts + [last] == [last];
    } else {
      assert (parts + [last])[1..] == parts[1..] + [last];
      JoinSnoc(parts[1..], last);
    }
  }

  // p0f_correl ------------------------------------------------------------------------------------

  predicate AllDigits(s: string) {
    Parse(s, 10).Some?
  }

  /** May option text `x` of a packet stand for option text `y` of a signature?  None is ValueError or
      ZeroDivisionError. */
  function Fits(x: string, y: string): Option<bool> {
    if x == y || (|y| == 2 && |x| > 1 && y[1] == '*' && x[0] == y[0]) then Some(true)
    else if |y| > 2 && |x| > 1 && y[1] == '%' && x[0] == y[0] then
      var n, d := Parse(x[1..], 10), Parse(y[2..], 10);
      if n == None || d == None || d.value == 0 then None else Some(n.value % d.value == 0)
    else Some(false)
  }

  /** The first pair that does not fit ends the comparison. */
  function AllFit(xs: seq<string>, ys: seq<string>): Option<bool>
    requires |xs| == |ys|
  {
    if |xs| == 0 then Some(true)
    else
      var first := Fits(xs[0], ys[0]);
      if first == Some(true) then AllFit(xs[1..], ys[1..]) else first
  }

  /** All the option points or none of them. */
  function Points(x: string, y: string): Option<nat> {
    var xs, ys := Split(x, ','), Split(y, ',');
    if |xs| != |ys| then Some(0)
    else if AllFit(xs, ys) == None then None
    else Some(if AllFit(xs, ys).value then |xs| else 0)
  }

  method OptionPoints(x: string, y: string) returns (d: Option<nat>)
    ensures d == Points(x, y)
  {
    var xs, ys := Split(x, ','), Split(y, ',');
    if |xs| != |ys| {
      return Some(0);
    }
    assert xs[0..] == xs && ys[0..] == ys;
    for i := 0 to |xs|
      invariant AllFit(xs, ys) == AllFit(xs[i..], ys[i..])
    {
      assert xs[i..][1..] == xs[i + 1..] && ys[i..][1..] == ys[i + 1..];
      var fits := Fits(xs[i], ys[i]);
      if fits != Some(true) {
        return if fits == None then None else Some(0);
      }
    }
    return Some(|xs|);
  }

  /** The window point; None is IndexError, ValueError or ZeroDivisionError. */
  function WindowPoint(x: string, y: string): Option<bool> {
    if x == y || y == "*" then Some(true)
    else if |y| == 0 then None
    else if y[0] == '%' && AllDigits(x) then
      var d := Parse(y[1..], 10);
      if d == None || d.value == 0 then None else Some(Parse(x, 10).value % d.value == 0)
    else Some(false)
  }

  // p0f_impersonate -------------------------------------------------------------------------------

  /** `coef * n` for some `n` that `random.randint(1, max / coef)` may give. */
  predicate Drawn(v: nat, coef: nat, max: nat) {
    coef > 0 && coef <= v <= max && v % coef == 0
  }

  /** `o` may come out of the option text `opt` of a signature: `*` and `%n` leave a choice, which the
      original draws at random. */
  predicate Builds(opt: string, maxMss: nat, uptime: nat, o: TcpOption) {
    && |opt| > 0
    && if opt[0] == 'M' then
         o.MSS? && (if opt[1..] == "*" then 1 <= o.n <= maxMss
                    else if |opt| > 1 && opt[1] == '%' then
                      Parse(opt[2..], 10).Some? && Drawn(o.n, Parse(opt[2..], 10).value, maxMss)
                    else Parse(opt[1..], 10) == Some(o.n))
       else if opt[0] == 'W' then
         o.WScale? && (if opt[1..] == "*" then o.n <= 255
                       else if |opt| > 1 && opt[1] == '%' then
                         Parse(opt[2..], 10).Some? && Drawn(o.n, Parse(opt[2..], 10).value, 255)
                       else Parse(opt[1..], 10) == Some(o.n))
       else if opt == "T0" then o == Timestamp(0, 0)
       else if opt == "T" then o.Timestamp? && o.a == uptime
       else if opt == "S" then o == SAckOK
       else if opt == "N" then o == NOP
       else if opt == "E" then o == EOL
       else opt[0] == '?' && o.Other? && Parse(opt[1..], 10) == Some(o.kind)
  }

  /** One built option per text, in order. */
  ghost predicate Built(opts: seq<string>, maxMss: nat, uptime: nat, os: seq<TcpOption>) {
    |os| == |opts| && forall i | 0 <= i < |opts| :: Builds(opts[i], maxMss, uptime, os[i])
  }

  /** The largest MSS drawn, which depends on the window text; None is an exception. */
  function MaxMss(win: string): Option<nat> {
    if |win| == 0 then None
    else if win[0] != 'S' then Some(MAX_16)
    else
      var k := Parse(win[1..], 10);
      if k == None || k.value == 0 then None else Some(MAX_16 / k.value)
  }

  /** A numeral, `*` or `%n` that gives a value up to `max`; any other text raises. */
  predicate Drawable(text: string, least: nat, max: nat) {
    if text == "*" then least <= max
    else if |text| > 0 && text[0] == '%' then Parse(text[1..], 10).Some? && 0 < Parse(text[1..], 10).value <= max
    else Parse(text, 10).Some?
  }

  method DrawNumber(text: string, least: nat, max: nat) returns (r: Option<nat>)
    ensures r == None <==> !Drawable(text, least, max)
    ensures r.Some? ==>
      if text == "*" then least <= r.value <= max
      else if |text| > 0 && text[0] == '%' then
        Parse(text[1..], 10).Some? && Drawn(r.value, Parse(text[1..], 10).value, max)
      else Parse(text, 10) == r
  {
    if text == "*" {
      if max < least {
        return None;
      }
      var v :| least <= v <= max;
      return Some(v);
    }
    if |text| > 0 && text[0] == '%' {
      var coef := Parse(text[1..], 10);
      if coef == None || coef.value == 0 {
        return None;
      }
      QuotientPositive(coef.value, max);
      if max / coef.value < 1 {
        return None;
      }
      var n :| 1 <= n <= max / coef.value;
      Multiples(n, coef.value, max);
      return Some(coef.value * n);
    }
    return Parse(text, 10);
  }

  lemma QuotientPositive(coef: nat, max: nat)
    requires coef > 0
    ensures max / coef >= 1 <==> coef <= max
  {
    if coef <= max {
      AddDivisor(max - coef, coef);
    }
  }

  lemma Multiples(n: nat, coef: nat, max: nat)
    requires coef > 0 && 1 <= n <= max / coef
    ensures Drawn(coef * n, coef, max)
  {
    assert coef * n <= coef * (max / coef) <= max;
    assert (coef * n) % coef == 0 by { MulMod(n, coef); }
  }

  lemma {:induction false} MulMod(n: nat, coef: nat)
    requires coef > 0
    ensures (coef * n) % coef == 0 && (coef * n) / coef == n
  {
    if n > 0 {
      MulMod(n - 1, coef);
      assert coef * n == coef * (n - 1) + coef;
      AddDivisor(coef * (n - 1), coef);
    }
  }

  lemma AddDivisor(a: nat, d: nat)
    requires d > 0
    ensures (a + d) % d == a % d && (a + d) / d == a / d + 1
  {
    var q, r := a / d, a % d;
    assert a + d == d * (q + 1) + r;
    DivModUnique(a + d, d, q + 1, r);
  }

  lemma DivModUnique(a: nat, d: nat, q: nat, r: nat)
    requires d > 0 && r < d && a == d * q + r
    ensures a / d == q && a % d == r
  {
    var q', r' := a / d, a % d;
    assert a == d * q' + r';
    assert q' < q ==> d * (q' + 1) <= d * q;
    assert q' > q ==> d * (q + 1) <= d * q';
  }

  /** The texts that the original knows; it passes over the others with a warning. */
  predicate Known(opt: string) {
    |opt| > 0 && (opt[0] == 'M' || opt[0] == 'W' || opt[0] == '?' || opt in ["T0", "T", "S", "N", "E"])
  }

  /** `opt` does not raise: it is not empty and its number can be read or drawn. */
  predicate Accepted(opt: string, maxMss: Option<nat>) {
    && |opt| > 0
    && (opt[0] == 'M' ==> maxMss.Some? && Drawable(opt[1..], 1, maxMss.value))
    && (opt[0] == 'W' ==> Drawable(opt[1..], 0, 255))
    && (opt[0] == '?' ==> AllDigits(opt[1..]))
  }

  /** One option text; None is an exception, Some(None) a text that is passed over with a warning. */
  method BuildOne(opt: string, maxMss: Option<nat>, uptime: nat, quirk: bool) returns (r: Option<Option<TcpOption>>)
    ensures r == None <==> !Accepted(opt, maxMss)
    ensures r.Some? ==> (r.value.Some? <==> Known(opt))
    ensures r.Some? && r.value.Some? ==> Builds(opt, GetOr(maxMss, MAX_16), uptime, r.value.value)
    ensures r.Some? && r.value.Some? ==> (Echoes([r.value.value]) <==> quirk && opt == "T")
  {
    if |opt| == 0 {
      return None;
    }
    NoEcho();
    if opt[0] == 'M' {
      if maxMss == None {
        return None;
      }
      var n := DrawNumber(opt[1..], 1, maxMss.value);
      return if n == None then None else Some(Some(MSS(n.value)));
    } else if opt[0] == 'W' {
      var n := DrawNumber(opt[1..], 0, 255);
      return if n == None then None else Some(Some(WScale(n.value)));
    } else if opt == "T0" {
      return Some(Some(Timestamp(0, 0)));
    } else if opt == "T" {
      var echo: nat := 0;
      if quirk {
        echo :| 1 <= echo < 0x1_0000_0000;
      }
      assert Timestamp(uptime, echo) in [Timestamp(uptime, echo)];
      return Some(Some(Timestamp(uptime, echo)));
    } else if opt == "S" {
      return Some(Some(SAckOK));
    } else if opt == "N" {
      return Some(Some(NOP));
    } else if opt == "E" {
      return Some(Some(EOL));
    } else if opt[0] == '?' {
      var kind := Parse(opt[1..], 10);
      return if kind == None then None else Some(Some(Other(kind.value)));
    }
    return Some(None);
  }

  lemma NoEcho()
    ensures forall o: TcpOption :: Echoes([o]) ==> o.Timestamp? && o.b != 0
  {
  }

  function Kept(opts: seq<string>): (r: seq<string>)
    ensures |r| <= |opts|
    ensures |r| == |opts| ==> r == opts && forall opt | opt in opts :: Known(opt)
    ensures |r| < |opts| ==> exists opt | opt in opts :: !Known(opt)
  {
    if |opts| == 0 then []
    else
      var n := |opts| - 1;
      Kept(opts[..n]) + if Known(opts[n]) then [opts[n]] else []
  }

  /** The number is not that of an option with a letter; what becomes of one that is is not modelled. */
  predicate Numbered(opt: string) {
    |opt| > 0 && opt[0] == '?' && AllDigits(opt[1..]) ==> Parse(opt[1..], 10).value !in LETTERED_KINDS
  }

  /** The option list of `p0f_impersonate`, for a signature with the option text `sig`, the window text
      `win` and, if `quirk`, the quirk 'T'; None is an exception.  A packet with the options `was` gets
      the options `packet`. */
  method BuildOptions(sig: string, win: string, uptime: nat, quirk: bool, was: seq<TcpOption>)
      returns (r: Option<seq<TcpOption>>, packet: seq<TcpOption>)
    requires forall opt | opt in Split(sig, ',') :: Numbered(opt)
    ensures r == None <==> sig != "." && exists opt | opt in Split(sig, ',') :: !Accepted(opt, MaxMss(win))
    ensures r.Some? ==> Impersonates(sig, win, uptime, was, r.value, packet)
    ensures r.Some? && sig != "." ==> (Echoes(packet) <==> quirk && "T" in Split(sig, ','))
  {
    hide Builds, MaxMss, Accepted, Known, Split, Kept, Echoes;
    var os: seq<TcpOption> := [];
    packet := was;
    if sig == "." {
      return Some(os), packet;
    }
    var opts := Split(sig, ',');
    var max := MaxMss(win);
    KeptNone();
    RenderNone(0);
    KnownT();
    for i := 0 to |opts|
      invariant forall j | 0 <= j < i :: Accepted(opts[j], max)
      invariant Built(Kept(opts[..i]), GetOr(max, MAX_16), uptime, os)
      invariant i > 0 ==> packet == os
      invariant Echoes(os) <==> quirk && "T" in opts[..i]
    {
      var o := BuildOne(opts[i], max, uptime, quirk);
      if o == None {
        return None, packet;
      }
      KeptStep(opts, i);
      assert opts[..i + 1] == opts[..i] + [opts[i]];
      if o.value.Some? {
        EchoMore(os, o.value.value);
        os := os + [o.value.value];
      }
      packet := os;
    }
    assert opts[..|opts|] == opts;
    return Some(os), packet;
  }

  lemma KnownT()
    ensures Known("T")
  {
  }

  lemma EchoMore(os: seq<TcpOption>, o: TcpOption)
    ensures Echoes(os + [o]) <==> Echoes(os) || Echoes([o])
  {
    if Echoes([o]) {
      assert o in os + [o];
    }
    if Echoes(os) {
      var e :| e in os && e.Timestamp? && e.b != 0;
      assert e in os + [o];
    }
    if Echoes(os + [o]) && !Echoes(os) {
      assert o in [o];
    }
  }

  lemma KeptNone()
    ensures Kept([]) == []
  {
  }

  lemma KeptStep(opts: seq<string>, i: nat)
    requires i < |opts|
    ensures Kept(opts[..i + 1]) == Kept(opts[..i]) + if Known(opts[i]) then [opts[i]] else []
  {
    assert opts[..i + 1][..i] == opts[..i];
  }

  /** `os` is the list built for a signature, and a packet with the options `was` gets the options
      `packet`: a signature without options leaves it those it had. */
  ghost predicate Impersonates(sig: string, win: string, uptime: nat, was: seq<TcpOption>,
                               os: seq<TcpOption>, packet: seq<TcpOption>) {
    if sig == "." then os == [] && packet == was
    else Built(Kept(Split(sig, ',')), GetOr(MaxMss(win), MAX_16), uptime, os) && packet == os
  }

  function GetOr(o: Option<nat>, default: nat): nat { if o == None then default else o.value }

  /** The first MSS of the list. */
  function FirstMss(os: seq<TcpOption>): Option<nat> {
    if |os| == 0 then None else if os[0].MSS? then Some(os[0].n) else FirstMss(os[1..])
  }

  /** `w` may be the window for the window text `win`. */
  predicate WindowBuilds(win: string, os: seq<TcpOption>, mtu: nat, w: nat) {
    if win == "*" then w <= MAX_16
    else if AllDigits(win) then Parse(win, 10) == Some(w)
    else if |win| > 0 && win[0] == '%' then Parse(win[1..], 10).Some? && Drawn(w, Parse(win[1..], 10).value, MAX_16)
    else if |win| > 0 && win[0] == 'T' then Parse(win[1..], 10).Some? && w == mtu * Parse(win[1..], 10).value
    else |win| > 0 && win[0] == 'S' && FirstMss(os).Some? && Parse(win[1..], 10).Some?
         && w == FirstMss(os).value * Parse(win[1..], 10).value
  }

  /** `win` does not raise. */
  predicate WindowAccepted(win: string, os: seq<TcpOption>) {
    || win == "*"
    || AllDigits(win)
    || (|win| > 0 && win[0] == '%' && Drawable(win, 1, MAX_16))
    || (|win| > 0 && win[0] == 'T' && AllDigits(win[1..]))
    || (|win| > 0 && win[0] == 'S' && AllDigits(win[1..]) && FirstMss(os).Some?)
  }

  /** The window of `p0f_impersonate`; None is an exception. */
  method BuildWindow(win: string, os: seq<TcpOption>, mtu: nat) returns (r: Option<nat>)
    ensures r == None <==> !WindowAccepted(win, os)
    ensures r.Some? ==> WindowBuilds(win, os, mtu, r.value)
  {
    hide Parse, FirstMss;
    NumeralStart(win);
    if win == "*" {
      var w: nat :| w <= MAX_16;
      return Some(w);
    }
    if |win| == 0 {
      return None;
    }
    if AllDigits(win) {
      return Parse(win, 10);
    }
    if win[0] == '%' {
      r := DrawNumber(win, 1, MAX_16);
      return;
    }
    var k := Parse(win[1..], 10);
    if win[0] == 'T' {
      return if k == None then None else Some(mtu * k.value);
    }
    if win[0] == 'S' {
      var mss := FirstMss(os);
      return if mss == None || k == None then None else Some(mss.value * k.value);
    }
    return None;
  }

  // recognition -----------------------------------------------------------------------------------

  /** `text` is the numeral that `str` writes. */
  predicate Canonical(text: string) {
    Parse(text, 10).Some? && text == Decimal(Parse(text, 10).value)
  }

  /** What a signature's option text must be for its own packets to be recognised: a fixed number
      without leading zeros, and no `T` when the uptime is zero. */
  predicate Clear(opt: string, uptime: nat) {
    if opt == "T" then uptime != 0
    else
      |opt| > 0 && opt[0] in ['M', 'W', '?'] && opt[1..] != "*" && (|opt| > 1 ==> opt[1] != '%') ==>
        Canonical(opt[1..])
  }

  /** A built option fits the text it was built from exactly when that text is clear. */
  lemma OptionRecognised(opt: string, maxMss: nat, uptime: nat, o: TcpOption)
    requires Builds(opt, maxMss, uptime, o)
    ensures Fits(Shown(o), opt) == Some(Clear(opt, uptime))
  {
    hide Numeral, Value, Fits;
    if opt[0] in ['M', 'W', '?'] {
      assert opt == [opt[0]] + opt[1..];
      assert |opt| > 1 && opt[1] == '%' ==> opt[2..] == opt[1..][1..];
      NumeralStart(opt[1..]);
      NumberRecognised(opt[0], opt[1..], if o.Other? then o.kind else o.n);
    } else {
      SimpleRecognised(opt, uptime, o);
    }
  }

  lemma SimpleRecognised(opt: string, uptime: nat, o: TcpOption)
    requires |opt| > 0 && opt[0] !in ['M', 'W', '?'] && Builds(opt, 0, uptime, o)
    ensures Fits(Shown(o), opt) == Some(Clear(opt, uptime))
  {
  }

  lemma NumberRecognised(letter: char, text: string, n: nat)
    requires text == "*" || |text| > 0
    requires text != "*" ==>
      if text[0] == '%' then
        var d := Parse(text[1..], 10);
        d.Some? && d.value > 0 && n % d.value == 0
      else Parse(text, 10) == Some(n)
    ensures Fits([letter] + Decimal(n), [letter] + text)
         == Some(text == "*" || text[0] == '%' || Canonical(text))
  {
    hide Numeral, Parse, Value;
    var x, y := [letter] + Decimal(n), [letter] + text;
    assert x[1..] == Decimal(n) && y[1..] == text;
    ParseNumeral(n, 10);
    if text == "*" {
    } else if text[0] == '%' {
      assert y[2..] == text[1..];
      NonEmptyText(text[1..]);
    } else {
      NumeralStart(text);
      assert x == y <==> Decimal(n) == text;
    }
  }

  lemma NonEmptyText(text: string)
    ensures Parse(text, 10).Some? ==> |text| > 0
  {
  }

  lemma NumeralStart(text: string)
    ensures Parse(text, 10).Some? ==> |text| > 0 && '0' <= text[0] <= '9'
  {
    if Parse(text, 10).Some? {
      assert text[0] in text;
    }
  }

  lemma {:induction false} AllRecognised(opts: seq<string>, maxMss: nat, uptime: nat, os: seq<TcpOption>)
    requires Built(opts, maxMss, uptime, os)
    ensures AllFit(ShownAll(os), opts) == Some(forall opt | opt in opts :: Clear(opt, uptime))
  {
    hide Fits, Shown, Clear, Builds;
    if |opts| > 0 {
      OptionRecognised(opts[0], maxMss, uptime, os[0]);
      AllRecognised(opts[1..], maxMss, uptime, os[1..]);
      assert ShownAll(os)[1..] == ShownAll(os[1..]);
      assert opts == [opts[0]] + opts[1..];
    }
  }

  lemma NoComma(o: TcpOption)
    ensures ',' !in Shown(o)
  {
    hide Numeral;
    var n := if o.MSS? || o.WScale? then o.n else if o.Other? then o.kind else 0;
    assert ',' !in Decimal(n) by {
      assert !IsDigit(',', 10);
    }
  }

  /** The rendered options split into the shown options. */
  lemma ShownSplit(os: seq<TcpOption>)
    requires |os| > 0
    ensures Split(OptionText(os), ',') == ShownAll(os)
  {
    hide Split, Join, Shown;
    forall x | x in ShownAll(os) ensures ',' !in x {
      var i :| 0 <= i < |os| && x == Shown(os[i]);
      NoComma(os[i]);
    }
    SplitJoin(ShownAll(os), ',');
  }

  /** The options of an impersonating packet earn every option point exactly when the texts of the
      signature are known and clear, and no point otherwise; a signature without options needs a
      packet that had none. */
  lemma OptionsRecognised(sig: string, win: string, uptime: nat, was: seq<TcpOption>,
                          os: seq<TcpOption>, packet: seq<TcpOption>)
    requires Impersonates(sig, win, uptime, was, os, packet)
    ensures var opts := Split(sig, ',');
      var clear := if sig == "." then was == [] else forall opt | opt in opts :: Known(opt) && Clear(opt, uptime);
      Points(OptionText(packet), sig) == Some(if clear then |opts| else 0)
  {
    hide Split, Join, Builds, Clear, Fits, ShownAll, Shown, Known, MaxMss, Kept;
    var opts := Split(sig, ',');
    if |packet| > 0 {
      ShownSplit(packet);
    } else {
      OneDot();
    }
    if sig == "." {
      OneDot();
      if |packet| == 1 {
        NotDot(packet);
      } else if |packet| == 0 {
        SameFits(opts);
      }
    } else if |packet| == 0 && |opts| == 1 {
      SplitOne(sig);
      DotFits(opts);
    } else if |Kept(opts)| == |opts| {
      AllRecognised(opts, GetOr(MaxMss(win), MAX_16), uptime, os);
    }
  }

  lemma OneDot()
    ensures Split(".", ',') == ["."]
  {
    SplitWhole(".", ',');
  }

  lemma SplitOne(sig: string)
    ensures |Split(sig, ',')| == 1 ==> Split(sig, ',') == [sig]
  {
    SplitPieces(sig, ',');
  }

  lemma NotDot(os: seq<TcpOption>)
    requires |os| == 1
    ensures AllFit(ShownAll(os), ["."]) == Some(false)
  {
    assert Shown(os[0])[0] != '.';
  }

  lemma DotFits(opts: seq<string>)
    requires |opts| == 1 && opts[0] != "."
    ensures AllFit(["."], opts) == Some(false)
  {
  }

  lemma {:induction false} SameFits(xs: seq<string>)
    ensures AllFit(xs, xs) == Some(true)
  {
    if |xs| > 0 {
      SameFits(xs[1..]);
    }
  }

  /** `packet2p0f` shows the window in terms of the MSS. */
  predicate Shortened(w: nat, mss: int)
    requires mss >= -1
  {
    mss != -1 && ((mss != 0 && w % mss == 0) || w % (mss + 40) == 0)
  }

  /** Is every window that is built from this text recognised?  It takes the text, the MTU that was
      assumed and the MSS options of the packet to tell. */
  ghost predicate WindowClear(win: string, os: seq<TcpOption>, mtu: nat) {
    var first, last := FirstMss(os), LastMss(os);
    if win == "*" then true
    else if AllDigits(win) then Canonical(win) && !Shortened(Parse(win, 10).value, last)
    else if |win| > 0 && win[0] == '%' then
      Parse(win[1..], 10).Some? && forall w | Drawn(w, Parse(win[1..], 10).value, MAX_16) :: !Shortened(w, last)
    else
      && |win| > 0 && Canonical(win[1..])
      && var k := Parse(win[1..], 10).value;
         if win[0] == 'S' then last > 0 && (k == 0 || first == Some(last))
         else last != -1 && (k == 0 || mtu == last + 40) && !(last > 0 && (mtu * k) % last == 0)
  }

  /** A window built from a text other than `%n` is recognised exactly when the text is clear, and one
      drawn for `%n` exactly when it is not shown in terms of the MSS. */
  lemma WindowRecognised(win: string, os: seq<TcpOption>, mtu: nat, w: nat)
    requires WindowBuilds(win, os, mtu, w)
    ensures WindowPoint(WindowText(w, LastMss(os)), win) ==
      Some(if |win| > 0 && win[0] == '%' then !Shortened(w, LastMss(os)) else WindowClear(win, os, mtu))
  {
    hide Numeral, Parse, Value, LastMss, FirstMss;
    var mss := LastMss(os);
    var x := WindowText(w, mss);
    ParseNumeral(w, 10);
    NumeralStart(x);
    NumeralStart(win);
    if win != "*" && !AllDigits(win) && win[0] != '%' {
      Quotients(win, mss, w);
      MssPresent(os);
      var k := Parse(win[1..], 10).value;
      if win[0] == 'S' {
        SameProduct(FirstMss(os).value, mss, k);
      } else {
        SameProduct(mtu, mss + 40, k);
      }
    }
  }

  /** So all windows built from a text are recognised exactly when the text is clear. */
  lemma AllWindowsRecognised(win: string, os: seq<TcpOption>, mtu: nat)
    requires WindowAccepted(win, os)
    ensures (forall w | WindowBuilds(win, os, mtu, w) :: WindowPoint(WindowText(w, LastMss(os)), win) == Some(true))
       <==> WindowClear(win, os, mtu)
  {
    hide Numeral, Parse, Value, LastMss, FirstMss, WindowPoint, WindowText, Canonical, Shortened;
    forall w | WindowBuilds(win, os, mtu, w)
      ensures WindowPoint(WindowText(w, LastMss(os)), win) ==
        Some(if |win| > 0 && win[0] == '%' then !Shortened(w, LastMss(os)) else WindowClear(win, os, mtu))
    {
      WindowRecognised(win, os, mtu, w);
    }
    NumeralStart(win);
    if win == "*" {
    } else if AllDigits(win) {
      assert WindowBuilds(win, os, mtu, Parse(win, 10).value);
    } else if win[0] == '%' {
      var n := Parse(win[1..], 10).value;
      assert forall w: nat :: WindowBuilds(win, os, mtu, w) <==> Drawn(w, n, MAX_16);
    } else {
      var k := Parse(win[1..], 10).value;
      assert WindowBuilds(win, os, mtu, if win[0] == 'T' then mtu * k else FirstMss(os).value * k);
    }
  }

  lemma SameProduct(a: int, b: int, k: int)
    ensures a * k == b * k <==> k == 0 || a == b
  {
    assert (a - b) * k == a * k - b * k;
  }

  /** A list with a first MSS has a last one. */
  lemma {:induction false} MssPresent(os: seq<TcpOption>)
    ensures FirstMss(os).Some? ==> LastMss(os) >= 0
  {
    if |os| > 0 && !os[|os| - 1].MSS? {
      MssPresent(os[..|os| - 1]);
      FirstBefore(os);
    }
  }

  lemma {:induction false} FirstBefore(os: seq<TcpOption>)
    requires |os| > 0 && !os[|os| - 1].MSS?
    ensures FirstMss(os[..|os| - 1]) == FirstMss(os)
  {
    if |os| > 1 {
      assert os[..|os| - 1][1..] == os[1..][..|os| - 2];
      FirstBefore(os[1..]);
    }
  }

  /** The window `w` has the number of units that `win` says. */
  predicate InUnits(win: string, mss: int, w: nat)
    requires |win| > 0 && Parse(win[1..], 10).Some?
  {
    var k := Parse(win[1..], 10).value;
    && Canonical(win[1..])
    && if win[0] == 'S' then mss > 0 && w == mss * k
       else mss != -1 && !(mss > 0 && w % mss == 0) && w == (mss + 40) * k
  }

  /** A window in units of the MSS or the MTU is shown as `win` exactly when it has that many units. */
  lemma Quotients(win: string, mss: int, w: nat)
    requires |win| > 0 && (win[0] == 'S' || win[0] == 'T') && Parse(win[1..], 10).Some? && mss >= -1
    ensures WindowText(w, mss) == win <==> InUnits(win, mss, w)
  {
    hide Numeral, Parse, Value;
    var k := Parse(win[1..], 10).value;
    var unit := if mss > 0 && w % mss == 0 then mss else if mss != -1 && w % (mss + 40) == 0 then mss + 40 else 0;
    NumeralStart(Decimal(w));
    NumeralStart(win);
    ParseNumeral(w, 10);
    if unit == 0 {
      if mss != -1 && w == (mss + 40) * k {
        MulMod(k, mss + 40);
      }
      if mss > 0 && w == mss * k {
        MulMod(k, mss);
      }
    } else {
      Ratio(w, unit, k);
      ParseNumeral(w / unit, 10);
      var letter := if unit == mss then "S" else "T";
      assert WindowText(w, mss) == letter + Decimal(w / unit);
      assert WindowText(w, mss)[1..] == Decimal(w / unit);
      assert win == [win[0]] + win[1..];
      if mss > 0 && w == mss * k {
        MulMod(k, mss);
      }
    }
  }

  lemma Ratio(w: nat, unit: nat, k: nat)
    requires unit > 0 && w % unit == 0
    ensures w / unit == k <==> w == unit * k
  {
    assert w == unit * (w / unit);
    if w == unit * k {
      MulMod(k, unit);
    }
  }

  /** The windows built from the text fit in the sixteen bits of the field: those drawn always do, a
      number or a multiple as its value says.  Others cannot be sent. */
  predicate WindowFits(win: string, os: seq<TcpOption>, mtu: nat) {
    if win == "*" || (|win| > 0 && win[0] == '%') then true
    else if AllDigits(win) then Parse(win, 10).value <= MAX_16
    else
      |win| > 0 && AllDigits(win[1..]) &&
      var k := Parse(win[1..], 10).value;
      if win[0] == 'T' then mtu * k <= MAX_16 else FirstMss(os).Some? && FirstMss(os).value * k <= MAX_16
  }

  lemma FitsExactly(win: string, os: seq<TcpOption>, mtu: nat, w: nat)
    requires WindowBuilds(win, os, mtu, w)
    ensures w <= 65535 <==> WindowFits(win, os, mtu)
  {
    hide Parse, FirstMss;
    NumeralStart(win);
  }

  /** A signature `Sk` with one MSS option: the window is recognised exactly when the MSS is not zero.
      It fits in sixteen bits when the MSS was drawn, and for a fixed one exactly when their product does. */
  lemma UnitsRecognised(win: string, opts: seq<string>, uptime: nat, os: seq<TcpOption>, mtu: nat, w: nat, m: nat)
    requires |win| > 0 && win[0] == 'S' && Canonical(win[1..]) && MaxMss(win).Some?
    requires Built(opts, MaxMss(win).value, uptime, os)
    requires m < |os| && os[m].MSS? && forall i | 0 <= i < |os| && os[i].MSS? :: i == m
    requires WindowBuilds(win, os, mtu, w)
    ensures WindowPoint(WindowText(w, LastMss(os)), win) == Some(os[m].n != 0)
    ensures (opts[m][1..] == "*" || (|opts[m]| > 1 && opts[m][1] == '%')) ==> os[m].n != 0 && w <= 65535
    ensures Parse(opts[m][1..], 10).Some? ==>
      (w <= 65535 <==> Parse(opts[m][1..], 10).value * Parse(win[1..], 10).value <= 65535)
  {
    hide Numeral, Value, WindowText, WindowPoint, LastMss, FirstMss, Canonical;
    OnlyMss(os, m);
    NumeralStart(win);
    WindowRecognised(win, os, mtu, w);
    var k := Parse(win[1..], 10).value;
    assert w == os[m].n * k;
    assert Builds(opts[m], MAX_16 / k, uptime, os[m]);
    if opts[m][1..] == "*" || (|opts[m]| > 1 && opts[m][1] == '%') {
      NumeralStart(opts[m][1..]);
      DrawnFits(os[m].n, k);
    }
    NumeralStart(opts[m][1..]);
  }

  lemma DrawnFits(n: nat, k: nat)
    requires k > 0 && n <= MAX_16 / k
    ensures n * k <= MAX_16
  {
    assert n * k <= MAX_16 / k * k;
  }

  lemma OnlyMss(os: seq<TcpOption>, m: nat)
    requires m < |os| && os[m].MSS? && forall i | 0 <= i < |os| && os[i].MSS? :: i == m
    ensures FirstMss(os) == Some(os[m].n) && LastMss(os) == os[m].n
  {
    OnlyFirst(os, m);
    OnlyLast(os, m);
  }

  lemma {:induction false} OnlyFirst(os: seq<TcpOption>, m: nat)
    requires m < |os| && os[m].MSS? && forall i | 0 <= i < |os| && os[i].MSS? :: i == m
    ensures FirstMss(os) == Some(os[m].n)
  {
    if m > 0 {
      OnlyFirst(os[1..], m - 1);
    }
  }

  lemma {:induction false} OnlyLast(os: seq<TcpOption>, m: nat)
    requires m < |os| && os[m].MSS? && forall i | 0 <= i < |os| && os[i].MSS? :: i == m
    ensures LastMss(os) == os[m].n
  {
    if m < |os| - 1 {
      OnlyLast(os[..|os| - 1], m);
    }
  }

  // what is not recognised -------------------------------------------------------------------------

  lemma Literals()
    ensures Parse("01460", 10) == Some(1460) && Parse("5840", 10) == Some(5840)
    ensures Decimal(1460)[0] == '1'
  {
    hide Value;
    var none, d := "", "5840";
    assert Value(none, 10) == 0 by { ValueNone(); }
    ValueSnoc(none, '0', 10);
    ValueSnoc("0", '1', 10);
    ValueSnoc("01", '4', 10);
    ValueSnoc("014", '6', 10);
    ValueSnoc("0146", '0', 10);
    assert "0146" + "0" == "01460" && "014" + "6" == "0146" && "01" + "4" == "014";
    assert "0" + "1" == "01" && none + "0" == "0";
    ValueSnoc(none, '5', 10);
    ValueSnoc("5", '8', 10);
    ValueSnoc("58", '4', 10);
    ValueSnoc("584", '0', 10);
    assert "584" + "0" == d && "58" + "4" == "584" && "5" + "8" == "58" && none + "5" == "5";
    assert Decimal(1) == "1";
    assert Decimal(14) == Decimal(1) + "4";
    assert Decimal(146) == Decimal(14) + "6";
    assert Decimal(1460) == Decimal(146) + "0";
  }

  lemma ValueNone()
    ensures Value("", 10) == 0
  {
  }

  /** A signature with one option text. */
  lemma OneText(sig: string, uptime: nat, o: TcpOption)
    requires ',' !in sig && sig != "." && Known(sig) && Builds(sig, MAX_16, uptime, o)
    ensures Impersonates(sig, "*", uptime, [], [o], [o])
    ensures Points(OptionText([o]), sig) == Some(if Clear(sig, uptime) then 1 else 0)
  {
    hide Builds, Known, Clear, Points, OptionText, Split, Kept;
    SplitWhole(sig, ',');
    KeptNone();
    KeptStep([sig], 0);
    assert [sig][..1] == [sig] && [sig][..0] == [];
    assert GetOr(MaxMss("*"), MAX_16) == MAX_16;
    OptionsRecognised(sig, "*", uptime, [], [o], [o]);
  }

  /** A leading zero: the option built for `M01460` is shown as `M1460`, which is no option point. */
  lemma LeadingZero(uptime: nat)
    ensures Impersonates("M01460", "*", uptime, [], [MSS(1460)], [MSS(1460)])
    ensures Points(OptionText([MSS(1460)]), "M01460") == Some(0)
  {
    hide Parse, Points, Numeral, OptionText, Impersonates;
    var sig := "M01460";
    assert sig[1..] == "01460" && sig[1] == '0';
    Literals();
    OneText(sig, uptime, MSS(1460));
  }

  /** An uptime of zero: the timestamp built for `T` is shown as `T0`. */
  lemma ZeroUptime()
    ensures Impersonates("T", "*", 0, [], [Timestamp(0, 0)], [Timestamp(0, 0)])
    ensures Points(OptionText([Timestamp(0, 0)]), "T") == Some(0)
  {
    hide Parse, Points, OptionText, Impersonates;
    OneText("T", 0, Timestamp(0, 0));
  }

  /** A window given as a number that happens to be four times the MSS is shown as `S4`. */
  lemma NumericWindow(mtu: nat)
    ensures WindowBuilds("5840", [MSS(1460)], mtu, 5840)
    ensures WindowPoint(WindowText(5840, LastMss([MSS(1460)])), "5840") == Some(false)
  {
    hide Parse, WindowPoint, WindowText, Numeral;
    Literals();
    WindowRecognised("5840", [MSS(1460)], mtu, 5840);
  }

  // what is recognised ------------------------------------------------------------------------------

  /** A number of a packet and the number text of a signature: anything, a multiple, or the number. */
  predicate NumberMatches(text: string, n: nat) {
    || text == "*"
    || (|text| > 0 && text[0] == '%' && Divisor(text[1..]) && n % Parse(text[1..], 10).value == 0)
    || text == Decimal(n)
  }

  predicate Divisor(text: string) {
    Parse(text, 10).Some? && Parse(text, 10).value > 0
  }

  /** The option and the option text of a signature speak of the same kind of option, with a number, or
      a timestamp, that matches. */
  predicate Matches(opt: string, o: TcpOption)
    requires Known(opt)
  {
    match o
    case MSS(n) => opt[0] == 'M' && NumberMatches(opt[1..], n)
    case WScale(n) => opt[0] == 'W' && NumberMatches(opt[1..], n)
    case Other(kind) => opt[0] == '?' && NumberMatches(opt[1..], kind)
    case Timestamp(a, _) => opt == if a == 0 then "T0" else "T"
    case SAckOK => opt == "S"
    case NOP => opt == "N"
    case EOL => opt == "E"
  }

  /** A multiple is a multiple of something. */
  predicate Divides(opt: string) {
    |opt| > 2 && opt[1] == '%' ==> Divisor(opt[2..])
  }

  /** Whatever packet an option comes from, it fits a known text exactly when it matches. */
  lemma FitsExactlyMatches(o: TcpOption, opt: string)
    requires Known(opt) && Divides(opt)
    ensures Fits(Shown(o), opt) == Some(Matches(opt, o))
  {
    hide Numeral, Parse, Value;
    if opt[0] in ['M', 'W', '?'] {
      assert opt == [opt[0]] + opt[1..];
      if o.MSS? || o.WScale? || o.Other? {
        var n := if o.Other? then o.kind else o.n;
        NumberFits(Shown(o)[0], n, opt);
      }
    } else if o.MSS? || o.WScale? || o.Other? {
      assert Shown(o)[0] != opt[0];
    }
  }

  lemma NumberFits(letter: char, n: nat, opt: string)
    requires |opt| > 0 && opt[0] in ['M', 'W', '?'] && Divides(opt)
    ensures Fits([letter] + Decimal(n), opt) == Some(opt[0] == letter && NumberMatches(opt[1..], n))
  {
    hide Numeral, Parse, Value;
    var x, text := [letter] + Decimal(n), opt[1..];
    assert x[0] == letter && x[1..] == Decimal(n);
    ParseNumeral(n, 10);
    NumeralStart(Decimal(n));
    assert x == opt <==> letter == opt[0] && Decimal(n) == text by {
      assert opt == [opt[0]] + text;
    }
    if |opt| > 2 && opt[1] == '%' {
      assert text[1..] == opt[2..];
    }
    if |opt| == 2 {
      NumeralStart(text[1..]);
    }
    assert |text| > 0 && text[0] == '*' && |text| == 1 <==> text == "*";
  }

  /** The options of any packet earn every option point of a signature exactly when they match its
      texts one for one, and no point otherwise. */
  lemma PointsExactly(os: seq<TcpOption>, sig: string)
    requires sig != "." && forall opt | opt in Split(sig, ',') :: Known(opt) && Divides(opt)
    ensures var opts := Split(sig, ',');
      Points(OptionText(os), sig) == Some(if OneForOne(opts, os) then |opts| else 0)
  {
    hide Split, Join, Fits, ShownAll, Shown, Known, Divides, Matches;
    var opts := Split(sig, ',');
    if |os| > 0 {
      ShownSplit(os);
      if |os| == |opts| {
        AllFitExactly(os, opts);
      }
    } else {
      OneDot();
      if |opts| == 1 {
        SplitOne(sig);
        DotFits(opts);
      }
    }
  }

  predicate OneForOne(opts: seq<string>, os: seq<TcpOption>)
    requires forall opt | opt in opts :: Known(opt)
  {
    |os| == |opts| && forall i | 0 <= i < |opts| :: assert opts[i] in opts; Matches(opts[i], os[i])
  }

  lemma {:induction false} AllFitExactly(os: seq<TcpOption>, opts: seq<string>)
    requires |os| == |opts| && forall opt | opt in opts :: Known(opt) && Divides(opt)
    ensures AllFit(ShownAll(os), opts) == Some(OneForOne(opts, os))
  {
    hide Fits, Shown, Known, Divides, Matches;
    if |opts| > 0 {
      assert opts[0] in opts;
      FitsExactlyMatches(os[0], opts[0]);
      AllFitExactly(os[1..], opts[1..]);
      assert ShownAll(os)[1..] == ShownAll(os[1..]);
      assert OneForOne(opts, os) <==> Matches(opts[0], os[0]) && OneForOne(opts[1..], os[1..]) by {
        OneForOneFirst(opts, os);
      }
    }
  }

  lemma OneForOneFirst(opts: seq<string>, os: seq<TcpOption>)
    requires |os| == |opts| > 0 && forall opt | opt in opts :: Known(opt)
    ensures opts[0] in opts && forall opt | opt in opts[1..] :: Known(opt)
    ensures OneForOne(opts, os) <==> Matches(opts[0], os[0]) && OneForOne(opts[1..], os[1..])
  {
    hide Known, Matches;
    if Matches(opts[0], os[0]) && OneForOne(opts[1..], os[1..]) {
      forall i | 0 <= i < |opts| ensures Known(opts[i]) && Matches(opts[i], os[i]) {
        assert opts[i] in opts;
        if i > 0 {
          assert opts[1..][i - 1] in opts[1..] && Matches(opts[1..][i - 1], os[1..][i - 1]);
        }
      }
    }
    if OneForOne(opts, os) {
      forall i | 0 <= i < |opts| - 1 ensures Known(opts[1..][i]) && Matches(opts[1..][i], os[1..][i]) {
        assert opts[i + 1] in opts && Matches(opts[i + 1], os[i + 1]);
      }
    }
  }

  /** To match is to be shown like an option that the text builds, for some uptime and some limit, except
      that the draws leave out some numbers that match, zero and scales above 255, and that a numbered
      text with a wildcard builds nothing. */
  lemma MatchesBuilds(opt: string, o: TcpOption)
    requires Known(opt) && (o.MSS? ==> o.n > 0) && (o.WScale? ==> 0 < o.n <= 255)
    requires opt[0] == '?' ==> AllDigits(opt[1..])
    ensures Matches(opt, o) ==> exists maxMss, uptime, built ::
      Builds(opt, maxMss, uptime, built) && Shown(built) == Shown(o)
  {
    hide Numeral, Parse, Value;
    if Matches(opt, o) {
      var n := if o.MSS? || o.WScale? then o.n else if o.Other? then o.kind else 0;
      ParseNumeral(n, 10);
      NumeralStart(opt[1..]);
      if o.MSS? || o.WScale? {
        if opt[1..] != "*" && opt[1] == '%' {
          assert opt[1..][1..] == opt[2..];
          AtLeast(n, Parse(opt[2..], 10).value);
        }
        assert Builds(opt, n, 0, o);
      } else if o.Timestamp? {
        assert Builds(opt, 0, o.a, if o.a == 0 then Timestamp(0, 0) else o);
      } else {
        assert Builds(opt, 0, 0, o);
      }
    }
  }

  lemma AtLeast(n: nat, d: nat)
    requires n > 0 && d > 0 && n % d == 0
    ensures n >= d
  {
  }

  /** Comparing an option raises exactly for `%` before something that is no divisor, and an option that
      starts with the same letter. */
  lemma FitsRaises(o: TcpOption, opt: string)
    requires Known(opt)
    ensures Fits(Shown(o), opt) == None <==> !Divides(opt) && Shown(o)[0] == opt[0]
  {
    hide Numeral, Parse, Value;
    if o.MSS? || o.WScale? || o.Other? {
      var n := if o.Other? then o.kind else o.n;
      var x := Shown(o);
      assert x == [x[0]] + Decimal(n) && x[1..] == Decimal(n);
      ParseNumeral(n, 10);
      NumeralStart(Decimal(n));
    }
  }

  /** Comparing a window raises exactly for an empty text, and for `%` before something that is no divisor
      when the packet shows a number. */
  lemma WindowRaises(win: string, w: nat, mss: int)
    requires mss >= -1
    ensures WindowPoint(WindowText(w, mss), win) == None <==>
      win == "" || (win[0] == '%' && !Divisor(win[1..]) && !Shortened(w, mss))
  {
    hide Numeral, Parse, Value;
    ParseNumeral(w, 10);
    NumeralStart(WindowText(w, mss));
  }

  /** The windows of any packet earn their point exactly for these texts: any, their own numeral or a
      divisor if they are not shown in terms of the MSS, and their number of units if they are. */
  lemma WindowPointExactly(win: string, w: nat, mss: int)
    requires mss >= -1 && |win| > 0 && (win[0] == '%' ==> Divisor(win[1..]))
    ensures WindowPoint(WindowText(w, mss), win) == Some(
      if win == "*" then true
      else if AllDigits(win) then win == Decimal(w) && !Shortened(w, mss)
      else if win[0] == '%' then !Shortened(w, mss) && w % Parse(win[1..], 10).value == 0
      else (win[0] == 'S' || win[0] == 'T') && AllDigits(win[1..]) && InUnits(win, mss, w))
  {
    hide Numeral, Parse, Value;
    var x := WindowText(w, mss);
    ParseNumeral(w, 10);
    NumeralStart(x);
    NumeralStart(win);
    if win != "*" && !AllDigits(win) && win[0] != '%' {
      if (win[0] == 'S' || win[0] == 'T') && AllDigits(win[1..]) {
        Quotients(win, mss, w);
      } else {
        UnitsNumeral(w, mss);
        NumeralStart(Decimal(w));
      }
    }
  }

  lemma UnitsNumeral(w: nat, mss: int)
    requires mss >= -1
    ensures var x := WindowText(w, mss);
      |x| > 0 && if Shortened(w, mss) then (x[0] == 'S' || x[0] == 'T') && AllDigits(x[1..]) else x == Decimal(w)
  {
    hide Numeral, Parse, Value;
    NumeralStart(Decimal(w));
    ParseNumeral(w, 10);
    if mss > 0 && w % mss == 0 {
      ParseNumeral(w / mss, 10);
      assert WindowText(w, mss)[1..] == Decimal(w / mss);
    } else if mss != -1 && w % (mss + 40) == 0 {
      ParseNumeral(w / (mss + 40), 10);
      assert WindowText(w, mss)[1..] == Decimal(w / (mss + 40));
    }
  }

  /** Which MSS counts: the first one for the window that is built, the last one for the one shown. */
  lemma {:induction false} FirstMssIs(os: seq<TcpOption>)
    ensures FirstMss(os).None? ==> forall o | o in os :: !o.MSS?
    ensures FirstMss(os).Some? ==>
              exists i :: 0 <= i < |os| && os[i] == MSS(FirstMss(os).value) && forall j | 0 <= j < i :: !os[j].MSS?
  {
    if |os| > 0 && !os[0].MSS? {
      FirstMssIs(os[1..]);
      if FirstMss(os).Some? {
        var i :| 0 <= i < |os[1..]| && os[1..][i] == MSS(FirstMss(os).value)
                 && forall j | 0 <= j < i :: !os[1..][j].MSS?;
        assert os[i + 1] == MSS(FirstMss(os).value);
        forall j | 0 <= j < i + 1 ensures !os[j].MSS? {
          assert j > 0 ==> os[j] == os[1..][j - 1];
        }
      }
    }
  }

  lemma {:induction false} LastMssIs(os: seq<TcpOption>)
    ensures LastMss(os) == -1 ==> forall o | o in os :: !o.MSS?
    ensures LastMss(os) != -1 ==>
              exists i :: 0 <= i < |os| && os[i] == MSS(LastMss(os)) && forall j | i < j < |os| :: !os[j].MSS?
  {
    if |os| > 0 {
      var n := |os| - 1;
      var front := os[..n];
      assert os == front + [os[n]];
      if os[n].MSS? {
        assert os[n] == MSS(LastMss(os));
      } else {
        LastMssIs(front);
        if LastMss(os) != -1 {
          var i :| 0 <= i < n && front[i] == MSS(LastMss(os)) && forall j | i < j < n :: !front[j].MSS?;
          assert os[i] == MSS(LastMss(os)) && forall j | i < j < n :: os[j] == front[j];
        }
      }
    }
  }

  /** A packet with every kind of option, as it is shown, and as its text is split again. */
  lemma ShownExample()
    ensures Split(OptionText([MSS(5), NOP, WScale(6), Timestamp(0, 5), Timestamp(7, 0), SAckOK, EOL, Other(9)]), ',')
         == ["M5", "N", "W6", "T0", "T", "S", "E", "?9"]
    ensures OptionText([MSS(5), NOP]) == "M5,N" && OptionText([]) == "."
  {
    hide Join, Split;
    var os := [MSS(5), NOP, WScale(6), Timestamp(0, 5), Timestamp(7, 0), SAckOK, EOL, Other(9)];
    assert Decimal(5) == "5" && Decimal(6) == "6" && Decimal(9) == "9";
    assert Shown(os[0]) == "M5" && Shown(os[1]) == "N" && Shown(os[2]) == "W6" && Shown(os[3]) == "T0";
    assert Shown(os[4]) == "T" && Shown(os[5]) == "S" && Shown(os[6]) == "E" && Shown(os[7]) == "?9";
    assert ShownAll(os) == ["M5", "N", "W6", "T0", "T", "S", "E", "?9"];
    SplitJoin(ShownAll(os), ',');
    JoinTwo("M5", "N");
    assert ShownAll([MSS(5), NOP]) == ["M5", "N"];
  }

  lemma JoinTwo(x: string, y: string)
    ensures Join([x, y], ',') == x + "," + y
  {
    assert [x, y][1..] == [y];
  }

  lemma WindowExample()
    ensures WindowText(12, 6) == "S2" && WindowText(46, 6) == "T1" && WindowText(7, 6) == "7"
    ensures WindowText(7, -1) == "7" && WindowText(5, 0) == "5" && WindowText(0, 0) == "T0"
  {
    assert Decimal(0) == "0" && Decimal(1) == "1" && Decimal(2) == "2" && Decimal(5) == "5" && Decimal(7) == "7";
  }

  /** The bytes of the options, which decide on the quirk 'P': four, one, three, ten, two and one. */
  lemma TakenExample(a: nat, b: nat, c: nat, d: nat)
    ensures Taken([MSS(a), NOP, WScale(b), Timestamp(c, d), SAckOK, EOL]) == 21
    ensures Padded([MSS(a), NOP, WScale(b), Timestamp(c, d), SAckOK, EOL], 22)
    ensures !Padded([MSS(a), NOP, WScale(b), Timestamp(c, d), SAckOK, EOL], 21)
  {
    var os := [MSS(a), NOP, WScale(b), Timestamp(c, d), SAckOK, EOL];
    TakenStep(os, 0);
    TakenStep(os, 1);
    TakenStep(os, 2);
    TakenStep(os, 3);
    TakenStep(os, 4);
    TakenStep(os, 5);
    assert os[..5 + 1] == os && os[..0] == [];
    assert os[5] == EOL && Taken(os[..5 + 1]) == 21;
    forall i | 0 <= i < 6 && os[i] == EOL ensures i == 5 {
    }
  }
}
