/** `options_to_scapy` of `OSfooler/osfooler_ng/osfooler_ng.py`: the TCP option strings of the nmap
    fingerprint database. */
module NmapOptions {
  import opened Options
  import opened Numerals

  datatype TcpOption = NOP | SAckOK | EOL | MSS(n: nat) | WScale(n: nat) | Timestamp(a: nat, b: nat)

  predicate IsLetter(c: char) {
    c == 'N' || c == 'W' || c == 'M' || c == 'S' || c == 'T' || c == 'L'
  }

  /** The characters up to the next option letter. */
  function Operand(x: string): string {
    if |x| == 0 || IsLetter(x[0]) then "" else [x[0]] + Operand(x[1..])
  }

  function Flag(c: char): nat { if c == '0' then 0 else 1 }

  /** What the outer loop appends at one position, the rest of the text being `x`; None is ValueError
      or IndexError.  Characters that are no option letter add nothing. */
  function Here(x: string): Option<seq<TcpOption>>
    requires |x| > 0
  {
    var c, more := x[0], x[1..];
    if c == 'W' || c == 'M' then
      var n := Parse(Operand(more), 16);
      if n == None then None else Some([if c == 'W' then WScale(n.value) else MSS(n.value)])
    else if c == 'N' then Some([NOP])
    else if c == 'S' then Some([SAckOK])
    else if c == 'T' then (if |x| < 3 then None else Some([Timestamp(Flag(x[1]), Flag(x[2]))]))
    else if c == 'L' then Some([EOL])
    else Some([])
  }

  function Scan(x: string): Option<seq<TcpOption>> {
    if |x| == 0 then Some([])
    else
      var first, more := Here(x), Scan(x[1..]);
      if first == None || more == None then None else Some(first.value + more.value)
  }

  /** The options found so far, and those still to come. */
  function Onto(done: seq<TcpOption>, more: Option<seq<TcpOption>>): Option<seq<TcpOption>> {
    if more == None then None else Some(done + more.value)
  }

  method ReadOperand(x: string, start: nat) returns (operand: string)
    requires start <= |x|
    ensures operand == Operand(x[start..])
  {
    operand := "";
    var index := start;
    while index < |x| && !IsLetter(x[index])
      invariant start <= index <= |x|
      invariant Operand(x[start..]) == operand + Operand(x[index..])
    {
      assert x[index..][1..] == x[index + 1..];
      assert operand + ([x[index]] + Operand(x[index + 1..])) == operand + [x[index]] + Operand(x[index + 1..]);
      operand := operand + [x[index]];
      index := index + 1;
    }
    assert operand + "" == operand;
  }

  method OptionsToScapy(x: string) returns (r: Option<seq<TcpOption>>)
    ensures r == Scan(x)
  {
    hide Scan, Parse;
    var options := [];
    assert x[0..] == x;
    OntoNil(Scan(x));
    for i := 0 to |x|
      invariant Scan(x) == Onto(options, Scan(x[i..]))
    {
      ScanStep(x, i, options);
      if x[i] == 'W' {
        var w := ReadOperand(x, i + 1);
        var n := Parse(w, 16);
        if n == None { return None; }
        options := options + [WScale(n.value)];
      } else if x[i] == 'N' {
        options := options + [NOP];
      } else if x[i] == 'M' {
        var m := ReadOperand(x, i + 1);
        var n := Parse(m, 16);
        if n == None { return None; }
        options := options + [MSS(n.value)];
      } else if x[i] == 'S' {
        options := options + [SAckOK];
      } else if x[i] == 'T' {
        if i + 2 >= |x| { return None; }
        options := options + [Timestamp(Flag(x[i + 1]), Flag(x[i + 2]))];
      } else if x[i] == 'L' {
        options := options + [EOL];
      } else {
        assert options + [] == options;
      }
    }
    ScanEnd(x[|x|..], options);
    return Some(options);
  }

  lemma OntoNil(more: Option<seq<TcpOption>>)
    ensures Onto([], more) == more
  {
    assert more.Some? ==> [] + more.value == more.value;
  }

  lemma ScanEnd(x: string, done: seq<TcpOption>)
    requires x == ""
    ensures Onto(done, Scan(x)) == Some(done)
  {
    assert done + [] == done;
  }

  lemma ScanStep(x: string, i: nat, done: seq<TcpOption>)
    requires i < |x|
    ensures var here := Here(x[i..]);
      Onto(done, Scan(x[i..])) == if here == None then None else Onto(done + here.value, Scan(x[i + 1..]))
    ensures x[i..][0] == x[i] && x[i..][1..] == x[i + 1..]
  {
    assert x[i..][1..] == x[i + 1..];
    var here, more := Here(x[i..]), Scan(x[i + 1..]);
    if here.Some? && more.Some? {
      assert done + (here.value + more.value) == done + here.value + more.value;
    }
  }

  // The printer -----------------------------------------------------------------------------------

  /** `text` is a way to write the option: any hexadecimal spelling of its number will do. */
  predicate Spells(o: TcpOption, text: string) {
    match o
    case NOP => text == "N"
    case SAckOK => text == "S"
    case EOL => text == "L"
    case MSS(n) => |text| > 0 && text[0] == 'M' && Parse(text[1..], 16) == Some(n)
    case WScale(n) => |text| > 0 && text[0] == 'W' && Parse(text[1..], 16) == Some(n)
    case Timestamp(a, b) => |text| == 3 && text[0] == 'T' && FlagText(text[1], a) && FlagText(text[2], b)
  }

  predicate FlagText(c: char, a: nat) {
    (c == '0' && a == 0) || (c == '1' && a == 1)
  }

  function Concat(texts: seq<string>): string {
    if |texts| == 0 then "" else texts[0] + Concat(texts[1..])
  }

  /** A text that is empty or starts with an option letter. */
  predicate Fresh(x: string) {
    |x| == 0 || IsLetter(x[0])
  }

  /** Hexadecimal digits are never option letters, so nothing is found in an operand... */
  lemma {:induction false} ScanDigits(d: string, more: string)
    requires forall c | c in d :: IsDigit(c, 16)
    ensures Scan(d + more) == Scan(more)
  {
    if |d| == 0 {
      assert d + more == more;
    } else {
      assert d[0] in d && (d + more)[1..] == d[1..] + more;
      ScanDigits(d[1..], more);
      OntoNil(Scan(more));
    }
  }

  /** ...and an operand ends where it was meant to end. */
  lemma {:induction false} OperandDigits(d: string, more: string)
    requires (forall c | c in d :: IsDigit(c, 16)) && Fresh(more)
    ensures Operand(d + more) == d
  {
    if |d| == 0 {
      assert d + more == more;
    } else {
      assert d[0] in d && (d + more)[1..] == d[1..] + more;
      OperandDigits(d[1..], more);
    }
  }

  lemma ScanOne(o: TcpOption, text: string, more: string)
    requires Spells(o, text) && Fresh(more)
    ensures Scan(text + more) == Onto([o], Scan(more))
  {
    hide Scan, Here, Parse, Operand, Spells;
    SpelledFresh(o, text);
    var x, d := text + more, text[1..];
    assert x[0] == text[0] && x[1..] == d + more;
    SpelledDigits(o, text);
    ScanDigits(d, more);
    OperandDigits(d, more);
    HereSpelled(o, text, more);
    ScanTurn(x);
  }

  lemma SpelledDigits(o: TcpOption, text: string)
    requires Spells(o, text)
    ensures |text| > 0 && forall c | c in text[1..] :: IsDigit(c, 16)
  {
  }

  lemma HereSpelled(o: TcpOption, text: string, more: string)
    requires Spells(o, text) && |text| > 0 && Operand(text[1..] + more) == text[1..]
    ensures Here(text + more) == Some([o])
  {
    hide Operand, Parse;
    assert (text + more)[1..] == text[1..] + more;
  }

  lemma ScanTurn(x: string)
    requires |x| > 0
    ensures Scan(x) == if Here(x) == None then None else Onto(Here(x).value, Scan(x[1..]))
  {
  }

  lemma SpelledFresh(o: TcpOption, text: string)
    requires Spells(o, text)
    ensures |text| > 0 && IsLetter(text[0])
  {
  }

  /** Reading back a printed option list gives that list. */
  lemma {:induction false} ScanUndoesPrint(os: seq<TcpOption>, texts: seq<string>)
    requires |os| == |texts| && forall i | 0 <= i < |os| :: Spells(os[i], texts[i])
    ensures Scan(Concat(texts)) == Some(os) && Fresh(Concat(texts))
    decreases |os|
  {
    if |os| > 0 {
      forall i | 0 <= i < |os| - 1 ensures Spells(os[1..][i], texts[1..][i]) {
        assert Spells(os[i + 1], texts[i + 1]);
      }
      ScanUndoesPrint(os[1..], texts[1..]);
      SpelledFresh(os[0], texts[0]);
      ScanOne(os[0], texts[0], Concat(texts[1..]));
      assert os == [os[0]] + os[1..];
    }
  }

  /** The canonical spelling is one of them. */
  function Print(o: TcpOption): string {
    match o
    case NOP => "N"
    case SAckOK => "S"
    case EOL => "L"
    case MSS(n) => "M" + Numeral(n, 16)
    case WScale(n) => "W" + Numeral(n, 16)
    case Timestamp(a, b) => "T" + (if a == 0 then "0" else "1") + (if b == 0 then "0" else "1")
  }

  lemma PrintSpells(o: TcpOption)
    requires o.Timestamp? ==> o.a <= 1 && o.b <= 1
    ensures Spells(o, Print(o))
  {
    if o.MSS? || o.WScale? {
      ParseNumeral(o.n, 16);
      assert Print(o)[1..] == Numeral(o.n, 16);
    }
  }

  function PrintAll(os: seq<TcpOption>): (r: seq<string>)
    ensures |r| == |os|
  {
    seq(|os|, i requires 0 <= i < |os| => Print(os[i]))
  }

  /** What the printer writes is read back, for all numbers and all flags that are 0 or 1. */
  lemma ScanUndoesPrintAll(os: seq<TcpOption>)
    requires forall o | o in os && o.Timestamp? :: o.a <= 1 && o.b <= 1
    ensures Scan(Concat(PrintAll(os))) == Some(os)
  {
    hide Print, Spells;
    forall i | 0 <= i < |os| ensures Spells(os[i], PrintAll(os)[i]) {
      PrintSpells(os[i]);
    }
    ScanUndoesPrint(os, PrintAll(os));
  }

  /** The two characters behind a `T` are flags, zero for the digit zero only, and they are scanned again
      themselves; a `T` with fewer characters behind it raises. */
  lemma TimestampFlags(c: char, d: char, more: string)
    ensures Scan(['T', c, d] + more) ==
      Onto([Timestamp(if c == '0' then 0 else 1, if d == '0' then 0 else 1)], Scan([c, d] + more))
    ensures Scan("T") == None && Scan(['T', c]) == None
  {
    hide Scan;
    var x := ['T', c, d] + more;
    assert x[1..] == [c, d] + more && x[1] == c && x[2] == d;
    ScanTurn(x);
    ScanTurn("T");
    ScanTurn(['T', c]);
  }

  /** Anything that is no option letter is passed over. */
  lemma OtherCharacters(c: char, x: string)
    ensures c !in "NWMSTL" ==> Scan([c] + x) == Scan(x)
  {
    hide Scan, Operand, Parse;
    assert ([c] + x)[1..] == x;
    ScanTurn([c] + x);
    OntoNil(Scan(x));
  }

  /** A window scale or MSS is what stands in front of the next option letter, if that is a hexadecimal
      number, and raises otherwise. */
  lemma NumberRead(c: char, digits: string, rest: string)
    requires (forall d | d in digits :: d !in "NWMSTL") && (rest == "" || rest[0] in "NWMSTL")
    ensures var n := Parse(digits, 16);
      && (c == 'W' && n.Some? ==> Scan([c] + digits + rest) == Onto([WScale(n.value)], Scan(digits + rest)))
      && (c == 'M' && n.Some? ==> Scan([c] + digits + rest) == Onto([MSS(n.value)], Scan(digits + rest)))
      && ((c == 'W' || c == 'M') && n == None ==> Scan([c] + digits + rest) == None)
  {
    hide Scan, Operand, Parse;
    assert [c] + digits + rest == [c] + (digits + rest) && ([c] + (digits + rest))[1..] == digits + rest;
    OperandIs(digits, rest);
    ScanTurn([c] + (digits + rest));
  }

  lemma {:induction false} OperandIs(digits: string, rest: string)
    requires (forall d | d in digits :: d !in "NWMSTL") && (rest == "" || rest[0] in "NWMSTL")
    ensures Operand(digits + rest) == digits
  {
    if digits == "" {
      assert digits + rest == rest;
    } else {
      assert (digits + rest)[1..] == digits[1..] + rest && digits[0] in digits;
      OperandIs(digits[1..], rest);
    }
  }

  /** Options of the database as they stand there. */
  lemma ScanExample()
    ensures Scan("M5B4NW8ST10L") == Some([MSS(1460), NOP, WScale(8), SAckOK, Timestamp(1, 0), EOL])
  {
    var os := [MSS(1460), NOP, WScale(8), SAckOK, Timestamp(1, 0), EOL];
    var texts := ["M5B4", "N", "W8", "S", "T10", "L"];
    hide Scan, Parse, Concat;
    HexExample();
    EightExample();
    ConcatExample();
    assert "M5B4"[1..] == "5B4" && "W8"[1..] == "8";
    ScanUndoesPrint(os, texts);
  }

  lemma ConcatExample()
    ensures Concat(["M5B4", "N", "W8", "S", "T10", "L"]) == "M5B4NW8ST10L"
  {
    var texts := ["M5B4", "N", "W8", "S", "T10", "L"];
    assert texts[5..][1..] == [] && texts[4..][1..] == texts[5..] && texts[3..][1..] == texts[4..];
    assert texts[2..][1..] == texts[3..] && texts[1..][1..] == texts[2..];
    assert Concat(texts[5..]) == "L" && Concat(texts[4..]) == "T10L" && Concat(texts[3..]) == "ST10L";
    assert Concat(texts[2..]) == "W8ST10L" && Concat(texts[1..]) == "NW8ST10L" && Concat(texts) == "M5B4NW8ST10L";
  }

  lemma EightExample()
    ensures Parse("8", 16) == Some(8)
  {
    ValueSnoc("", '8', 16);
    assert "" + "8" == "8";
  }
}
