/** `tail` of `cowrie/core/utils.py`: the last lines of a file, found by scanning blocks from the end. */
module Tail {

  const BLOCK := 1024

  /** `text.count('\n')`. */
  function Count(s: string): nat {
    if |s| == 0 then 0 else (if s[0] == '\n' then 1 else 0) + Count(s[1..])
  }

  /** `readlines()`: every line keeps its newline; the last one may have none. */
  function Lines(s: string): seq<string> {
    if |s| == 0 then [] else PutBefore(s[0], Lines(s[1..]))
  }

  function PutBefore(c: char, lines: seq<string>): seq<string> {
    if c == '\n' || |lines| == 0 then [[c]] + lines else [[c] + lines[0]] + lines[1..]
  }

  /** `lines[-n:]`; for 0 that is the whole list. */
  function LastOf(lines: seq<string>, n: nat): seq<string> {
    if n == 0 || n >= |lines| then lines else lines[|lines| - n..]
  }

  /** A line: not empty, and without a newline before its last character. */
  predicate IsLine(x: string) {
    |x| > 0 && '\n' !in x[..|x| - 1]
  }

  predicate Ended(x: string) {
    |x| > 0 && x[|x| - 1] == '\n'
  }

  ghost predicate AreLines(lines: seq<string>) {
    && (forall x | x in lines :: IsLine(x))
    && (forall i | 0 <= i < |lines| - 1 :: Ended(lines[i]))
  }

  /** What the lines are: they make up the text, and a newline is exactly the end of a line. */
  lemma {:induction false} LinesMeaning(s: string)
    ensures Flat(Lines(s)) == s && AreLines(Lines(s))
  {
    hide PutBefore, Flat, AreLines;
    if |s| == 0 {
      NoLines();
    } else {
      LinesMeaning(s[1..]);
      FlatPut(s[0], Lines(s[1..]));
      PutKeepsLines(s[0], Lines(s[1..]));
      assert s == [s[0]] + s[1..];
    }
  }

  lemma NoLines()
    ensures Lines("") == [] && Flat([]) == "" && AreLines([])
  {
  }

  lemma FlatPut(c: char, lines: seq<string>)
    ensures Flat(PutBefore(c, lines)) == [c] + Flat(lines)
  {
    if c == '\n' || |lines| == 0 {
      assert PutBefore(c, lines)[1..] == lines;
    } else {
      assert PutBefore(c, lines)[1..] == lines[1..];
      assert [c] + lines[0] + Flat(lines[1..]) == [c] + (lines[0] + Flat(lines[1..]));
    }
  }

  lemma PutKeepsLines(c: char, lines: seq<string>)
    requires AreLines(lines)
    ensures AreLines(PutBefore(c, lines))
  {
    var all := PutBefore(c, lines);
    if c == '\n' || |lines| == 0 {
      forall i | 0 <= i < |all| ensures IsLine(all[i]) && (i < |all| - 1 ==> Ended(all[i])) {
        if i > 0 {
          assert all[i] == lines[i - 1];
        }
      }
    } else {
      assert lines[0] in lines;
      LongerLine(c, lines[0]);
      forall i | 0 <= i < |all| ensures IsLine(all[i]) && (i < |all| - 1 ==> Ended(all[i])) {
        if i > 0 {
          assert all[i] == lines[i];
        }
      }
    }
  }

  lemma LongerLine(c: char, line: string)
    requires c != '\n' && IsLine(line)
    ensures IsLine([c] + line) && Ended([c] + line) == Ended(line)
  {
    assert ([c] + line)[..|line|] == [c] + line[..|line| - 1];
  }

  function Flat(parts: seq<string>): string {
    if |parts| == 0 then "" else parts[0] + Flat(parts[1..])
  }

  lemma {:induction false} CountAppend(a: string, b: string)
    ensures Count(a + b) == Count(a) + Count(b)
  {
    if |a| == 0 {
      assert a + b == b;
    } else {
      assert (a + b)[1..] == a[1..] + b;
      CountAppend(a[1..], b);
    }
  }

  lemma {:induction false} AtLeastCount(s: string)
    ensures |Lines(s)| >= Count(s)
  {
    if |s| > 0 {
      AtLeastCount(s[1..]);
    }
  }

  lemma PutBeforeKeepsEnd(c: char, lines: seq<string>, n: nat)
    requires n < |lines|
    ensures n < |PutBefore(c, lines)| && (n > 0 ==> LastOf(PutBefore(c, lines), n) == LastOf(lines, n))
  {
    var k := |lines| - n;
    if c == '\n' {
      assert PutBefore(c, lines) == [[c]] + lines;
      assert ([[c]] + lines)[k + 1..] == lines[k..];
    } else {
      assert PutBefore(c, lines) == [[c] + lines[0]] + lines[1..];
      assert ([[c] + lines[0]] + lines[1..])[k..] == lines[k..];
    }
  }

  /** Text in front does not change the last lines, when there are more of them than asked for: only
      the first line of the rest can have been cut in two. */
  lemma {:induction false} FrontDoesNotMatter(a: string, b: string, n: nat)
    requires n < |Lines(b)|
    ensures n < |Lines(a + b)| && (n > 0 ==> LastOf(Lines(a + b), n) == LastOf(Lines(b), n))
  {
    if |a| == 0 {
      assert a + b == b;
    } else {
      assert (a + b)[1..] == a[1..] + b;
      FrontDoesNotMatter(a[1..], b, n);
      PutBeforeKeepsEnd(a[0], Lines(a[1..] + b), n);
    }
  }

  /** The newlines from `start` on are those of one block and those behind it. */
  lemma CountBlock(file: string, start: nat, end: nat)
    requires start <= end <= |file|
    ensures Count(file[start..]) == Count(file[start..end]) + Count(file[end..])
  {
    hide Count;
    assert file[start..] == file[start..end] + file[end..];
    CountAppend(file[start..end], file[end..]);
  }

  lemma NothingYet(file: string)
    ensures Count(file[|file|..]) == 0
  {
  }

  /** The scan may stop at `cut`: at the start of the file, or with more than `n` newlines behind it. */
  lemma Enough(file: string, cut: nat, n: nat)
    requires cut <= |file| && (cut > 0 ==> Count(file[cut..]) > n)
    ensures n >= 1 ==> LastOf(Lines(file[cut..]), n) == LastOf(Lines(file), n)
  {
    hide Count, Lines, LastOf;
    if cut == 0 {
      assert file[0..] == file;
    } else {
      AtLeastCount(file[cut..]);
      FrontDoesNotMatter(file[..cut], file[cut..], n);
      assert file == file[..cut] + file[cut..];
    }
  }

  lemma AllOf(s: string)
    ensures LastOf(Lines(s), 0) == [] <==> s == ""
  {
  }

  /** The block scan gives the last `n` lines of the whole file exactly for `n >= 1` or an empty
      file; asked for no lines it returns some. */
  method TailOf(file: string, n: nat) returns (lines: seq<string>)
    ensures n >= 1 ==> lines == LastOf(Lines(file), n)
    ensures n == 0 ==> (lines == [] <==> file == "")
  {
    hide Count, Lines, LastOf;
    var size := |file|;
    var found, scanned := 0, 0;
    NothingYet(file);
    while n + 1 > found && size > scanned
      invariant scanned <= size && (scanned == 0 ==> found == 0)
      invariant scanned < size ==> found == Count(file[size - scanned..])
      decreases size - scanned
    {
      var block := if BLOCK < size - scanned then BLOCK else size - scanned;
      var start := size - (block + scanned);
      // read(1024) from there; a short block at the start of the file is read beyond its end
      var end := if start + BLOCK < size then start + BLOCK else size;
      CountBlock(file, start, end);
      assert start > 0 ==> end == size - scanned;
      scanned := scanned + block;
      found := found + Count(file[start..end]);
    }
    Enough(file, size - scanned, n);
    AllOf(file[size - scanned..]);
    lines := LastOf(Lines(file[size - scanned..]), n);
  }

  /** `tail` keeps as many lines as were asked for, or all there are, and those from the end. */
  lemma LastOfIs(lines: seq<string>, n: nat)
    requires n >= 1
    ensures |LastOf(lines, n)| == if n < |lines| then n else |lines|
    ensures exists front :: lines == front + LastOf(lines, n)
  {
    var k := if n < |lines| then |lines| - n else 0;
    assert lines == lines[..k] + LastOf(lines, n);
  }
}
