// The terminal a person types at: one line, wide enough not to wrap, driven by
// the bytes the console emits (common/console.c writes printable characters,
// backspaces, the two cursor escapes CSI n C and CSI n D, newline and form feed).
module Terminal {

  const NUL: char := 0 as char
  const BACKSPACE: char := 8 as char
  const NEWLINE: char := 10 as char
  const FORM_FEED: char := 12 as char
  const ESCAPE: char := 27 as char

  /** Where the terminal is inside an escape sequence. */
  datatype Parse = Ground | GotEsc | Csi(n: nat)

  /** The row holds what has been drawn so far; every cell past it is blank. */
  datatype Term = Term(row: seq<char>, col: nat, parse: Parse)

  function Cell(row: seq<char>, i: nat): char {
    if i < |row| then row[i] else ' '
  }

  const FRESH_LINE := Term([], 0, Ground)

  predicate Printable(c: char) {
    ' ' <= c <= '~'
  }

  predicate AllPrintable(s: seq<char>) {
    forall i :: 0 <= i < |s| ==> Printable(s[i])
  }

  function Blanks(n: nat): (s: seq<char>)
    ensures |s| == n && forall i :: 0 <= i < n ==> s[i] == ' '
  {
    seq(n, _ => ' ')
  }

  function Write(t: Term, c: char): (r: Term)
    ensures r.col == t.col + 1 && r.parse == t.parse && Cell(r.row, t.col) == c
    ensures forall i: nat :: i != t.col ==> Cell(r.row, i) == Cell(t.row, i)
  {
    if t.col < |t.row| then t.(row := t.row[t.col := c], col := t.col + 1)
    else t.(row := t.row + Blanks(t.col - |t.row|) + [c], col := t.col + 1)
  }

  function LeftBy(t: Term, n: nat): Term {
    t.(col := if n <= t.col then t.col - n else 0)
  }

  predicate IsDigit(c: char) {
    '0' <= c <= '9'
  }

  /** A terminal reads a cursor count of 0 as 1. */
  function AtLeastOne(n: nat): nat {
    if n == 0 then 1 else n
  }

  /** One byte arriving at the terminal. */
  function Feed(t: Term, c: char): Term {
    match t.parse
    case Ground =>
      if c == BACKSPACE then LeftBy(t, 1)
      else if c == NEWLINE || c == FORM_FEED then FRESH_LINE
      else if c == ESCAPE then t.(parse := GotEsc)
      else if Printable(c) then Write(t, c)
      else t
    case GotEsc =>
      if c == '[' then t.(parse := Csi(0)) else t.(parse := Ground)
    case Csi(n) =>
      if IsDigit(c) then t.(parse := Csi(10 * n + (c as int - '0' as int)))
      else if c == 'C' then t.(col := t.col + AtLeastOne(n), parse := Ground)
      else if c == 'D' then LeftBy(t, AtLeastOne(n)).(parse := Ground)
      else t.(parse := Ground)
  }

  function FeedAll(t: Term, s: seq<char>): Term
    decreases |s|
  {
    if s == [] then t else Feed(FeedAll(t, s[..|s| - 1]), s[|s| - 1])
  }

  lemma {:induction false} FeedAllConcat(t: Term, a: seq<char>, b: seq<char>)
    ensures FeedAll(t, a + b) == FeedAll(FeedAll(t, a), b)
    decreases |b|
  {
    if b == [] {
      assert a + b == a;
    } else {
      assert (a + b)[..|a + b| - 1] == a + b[..|b| - 1];
      FeedAllConcat(t, a, b[..|b| - 1]);
    }
  }

  /** Printing a text at the cursor draws exactly that text and nothing else. */
  lemma {:induction false} FeedText(t: Term, s: seq<char>)
    requires t.parse == Ground && AllPrintable(s)
    ensures var r := FeedAll(t, s);
            && r.parse == Ground && r.col == t.col + |s|
            && forall i: nat :: Cell(r.row, i) == if t.col <= i < t.col + |s| then s[i - t.col] else Cell(t.row, i)
    decreases |s|
  {
    if s != [] {
      FeedText(t, s[..|s| - 1]);
    }
  }

  function Repeat(c: char, n: nat): (s: seq<char>)
    ensures |s| == n && forall i :: 0 <= i < n ==> s[i] == c
  {
    seq(n, _ => c)
  }

  /** Backspaces move the cursor and leave the cells alone. */
  lemma {:induction false} FeedBackspaces(t: Term, n: nat)
    requires t.parse == Ground && n <= t.col
    ensures FeedAll(t, Repeat(BACKSPACE, n)) == t.(col := t.col - n)
    decreases n
  {
    if n != 0 {
      FeedBackspaces(t, n - 1);
      assert Repeat(BACKSPACE, n)[..n - 1] == Repeat(BACKSPACE, n - 1);
    }
  }

  /** The decimal digits printf's %d produces. */
  function Decimal(n: nat): (s: seq<char>)
    ensures |s| > 0 && forall i :: 0 <= i < |s| ==> IsDigit(s[i])
  {
    (if n < 10 then [] else Decimal(n / 10)) + [(n % 10 + '0' as int) as char]
  }

  lemma {:induction false} FeedDecimal(t: Term, n: nat)
    requires t.parse == Csi(0)
    ensures FeedAll(t, Decimal(n)) == t.(parse := Csi(n))
    decreases n
  {
    var s := Decimal(n);
    if n >= 10 {
      FeedDecimal(t, n / 10);
      assert s[..|s| - 1] == Decimal(n / 10);
    } else {
      assert s[..|s| - 1] == [];
    }
  }

  /** CSI n C and CSI n D as the console prints them. */
  function CursorRight(n: nat): seq<char> {
    [ESCAPE, '['] + Decimal(n) + ['C']
  }

  function CursorLeft(n: nat): seq<char> {
    [ESCAPE, '['] + Decimal(n) + ['D']
  }

  lemma FeedCursor(t: Term, n: nat)
    requires t.parse == Ground && n > 0
    ensures FeedAll(t, CursorRight(n)) == t.(col := t.col + n)
    ensures FeedAll(t, CursorLeft(n)) == LeftBy(t, n)
  {
    var open := t.(parse := Csi(0));
    FeedAllConcat(t, [], [ESCAPE, '[']);
    assert [ESCAPE, '['][..1] == [ESCAPE];
    assert [ESCAPE][..0] == [];
    assert FeedAll(t, [ESCAPE]) == Feed(t, ESCAPE);
    assert FeedAll(t, [ESCAPE, '[']) == open;
    FeedDecimal(open, n);
    FeedAllConcat(t, [ESCAPE, '['], Decimal(n));
    var s := [ESCAPE, '['] + Decimal(n);
    assert CursorRight(n)[..|s|] == s && CursorLeft(n)[..|s|] == s;
  }

  /** Any output with no escape in it that ends in a newline leaves a fresh line. */
  predicate LineOutput(s: seq<char>) {
    ESCAPE !in s && (s != [] ==> s[|s| - 1] == NEWLINE)
  }

  lemma {:induction false} FeedNoEscape(t: Term, s: seq<char>)
    requires t.parse == Ground && ESCAPE !in s
    ensures FeedAll(t, s).parse == Ground
    decreases |s|
  {
    if s != [] {
      FeedNoEscape(t, s[..|s| - 1]);
    }
  }

  lemma FeedLineOutput(s: seq<char>)
    requires LineOutput(s)
    ensures FeedAll(FRESH_LINE, s) == FRESH_LINE
  {
    if s != [] {
      FeedNoEscape(FRESH_LINE, s[..|s| - 1]);
    }
  }
}
