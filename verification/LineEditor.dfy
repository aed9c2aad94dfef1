// What the console's input line means, as values: a text, a cursor, an escape
// parser and a history ring.  Console.dfy proves that the firmware's in-place
// buffer code does exactly this, keystroke by keystroke.
module LineEditor {
  import opened Terminal

  /** Where the input is inside an escape sequence (esc_state). */
  datatype EscState = Outside | Start | Bad | Bracket | Bracket1 | Bracket3 | Bracket4 | BracketO

  const KEY_UP_ARROW := 0x100
  const KEY_DOWN_ARROW := 0x101
  const KEY_RIGHT_ARROW := 0x102
  const KEY_LEFT_ARROW := 0x103
  const KEY_END := 0x104
  const KEY_HOME := 0x105
  const KEY_DEL := 0x106
  const EATEN := -1

  const ESC := 0x1B
  const CR := 13
  const LF := 10
  const BS := 8
  const RUBOUT := 0x7f

  function Ctrl(c: char): int {
    c as int - '@' as int
  }

  predicate IsAlpha(c: int) {
    'A' as int <= c <= 'Z' as int || 'a' as int <= c <= 'z' as int
  }

  predicate IsPrintCode(c: int) {
    ' ' as int <= c <= '~' as int
  }

  /** One character inside an escape sequence: the next parser state and the key it completes. */
  function EscStep(s: EscState, c: int): (EscState, int) {
    var over := if IsAlpha(c) || c == '~' as int then Outside else Bad;
    match s
    case Start =>
      if c == '[' as int then (Bracket, EATEN) else if c == 'O' as int then (BracketO, EATEN) else (over, EATEN)
    case Bracket =>
      if c == '1' as int then (Bracket1, EATEN)
      else if c == '3' as int then (Bracket3, EATEN)
      else if c == '4' as int then (Bracket4, EATEN)
      else if c == 'A' as int then (Outside, KEY_UP_ARROW)
      else if c == 'B' as int then (Outside, KEY_DOWN_ARROW)
      else if c == 'C' as int then (Outside, KEY_RIGHT_ARROW)
      else if c == 'D' as int then (Outside, KEY_LEFT_ARROW)
      else (over, EATEN)
    case BracketO => if c == 'F' as int then (Outside, KEY_END) else (over, EATEN)
    case Bracket1 => if c == '~' as int then (Outside, KEY_HOME) else (over, EATEN)
    case Bracket3 => if c == '~' as int then (Outside, KEY_DEL) else (over, EATEN)
    case Bracket4 => if c == '~' as int then (Outside, KEY_END) else (over, EATEN)
    case _ => (over, EATEN)
  }

  datatype Editor = Editor(
    text: seq<char>, pos: nat,
    esc: EscState, cr: bool,
    hist: seq<seq<char>>, next: nat, cur: nat,
    commands: seq<seq<char>>)
  {
    ghost predicate WellFormed(size: nat) {
      && pos <= |text| < size && AllPrintable(text)
      && next < |hist| && cur < |hist|
      && forall i :: 0 <= i < |hist| ==> |hist[i]| < size && AllPrintable(hist[i])
    }

    function MoveTo(p: nat): Editor {
      this.(pos := p)
    }

    function Left(): Editor {
      if pos == 0 then this else MoveTo(pos - 1)
    }

    function Right(): Editor {
      if pos == |text| then this else MoveTo(pos + 1)
    }

    function EraseBefore(): Editor
      requires pos <= |text|
    {
      if pos == 0 then this else this.(text := text[..pos - 1] + text[pos..], pos := pos - 1)
    }

    function EraseAt(): Editor
      requires pos <= |text|
    {
      if pos == |text| then this else this.(text := text[..pos] + text[pos + 1..])
    }

    function KillToEnd(): Editor
      requires pos <= |text|
    {
      this.(text := text[..pos])
    }

    /** Typing at the cursor; a full line (size counts the terminating null) ignores the key. */
    function Insert(c: char, size: nat): Editor
      requires pos <= |text|
    {
      if |text| + 1 >= size then this else this.(text := text[..pos] + [c] + text[pos..], pos := pos + 1)
    }

    function Discard(): Editor {
      this.(text := [], pos := 0)
    }

    /** Return: a non-empty line is recorded, the line is executed, a new one starts. */
    function Submit(): Editor
      requires next < |hist|
    {
      var kept := if text == [] then this
                  else var n := (next + 1) % |hist|; this.(hist := hist[next := text], next := n, cur := n);
      kept.(commands := commands + [text], text := [], pos := 0)
    }

    /** Moving in the history first saves the line being typed. */
    function Stash(): Editor
      requires next < |hist|
    {
      if cur == next then this.(hist := hist[next := text]) else this
    }

    function Load(i: nat): Editor
      requires i < |hist|
    {
      this.(cur := i, text := hist[i], pos := |hist[i]|)
    }

    function Older(): Editor
      requires next < |hist| && cur < |hist|
    {
      Stash().Load(if cur == 0 then |hist| - 1 else cur - 1)
    }

    function Newer(): Editor
      requires next < |hist| && cur < |hist|
    {
      Stash().Load(if cur + 1 >= |hist| then 0 else cur + 1)
    }

    function Press(key: int, size: nat): Editor
      requires pos <= |text| && next < |hist| && cur < |hist|
    {
      if key == KEY_DEL then EraseAt()
      else if key == BS || key == RUBOUT then EraseBefore()
      else if key == Ctrl('C') then Discard()
      else if key == LF then Submit()
      else if key == Ctrl('A') || key == KEY_HOME then MoveTo(0)
      else if key == Ctrl('B') || key == KEY_LEFT_ARROW then Left()
      else if key == Ctrl('E') || key == KEY_END then MoveTo(|text|)
      else if key == Ctrl('F') || key == KEY_RIGHT_ARROW then Right()
      else if key == Ctrl('K') then KillToEnd()
      else if key == Ctrl('P') || key == KEY_UP_ARROW then Older()
      else if key == Ctrl('N') || key == KEY_DOWN_ARROW then Newer()
      else if IsPrintCode(key) then Insert(key as char, size)
      else this
    }

    /** A character after end-of-line translation. */
    function Interpret(c: int, size: nat): Editor
      requires pos <= |text| && next < |hist| && cur < |hist|
    {
      if c == ESC then this.(esc := Start)
      else if esc == Outside then Press(c, size)
      else var (s, key) := EscStep(esc, c); this.(esc := s).Press(key, size)
    }

    /** One received character: CR and CRLF count as a single newline. */
    function Receive(c: int, size: nat): Editor
      requires pos <= |text| && next < |hist| && cur < |hist|
    {
      if c == CR then this.(cr := true).Interpret(LF, size)
      else if c == LF && cr then this.(cr := false)
      else this.(cr := false).Interpret(c, size)
    }
  }

  // ---------------------------------------------------------------- laws

  lemma HistoryKeepsWellFormed(e: Editor, size: nat)
    requires e.WellFormed(size)
    ensures e.Older().WellFormed(size) && e.Newer().WellFormed(size) && e.Submit().WellFormed(size)
  {
    var h := e.hist[e.next := e.text];
    assert forall i :: 0 <= i < |h| ==> |h[i]| < size && AllPrintable(h[i]);
  }

  lemma EditKeepsWellFormed(e: Editor, c: int, size: nat)
    requires e.WellFormed(size)
    ensures e.EraseAt().WellFormed(size) && e.EraseBefore().WellFormed(size) && e.KillToEnd().WellFormed(size)
    ensures IsPrintCode(c) ==> e.Insert(c as char, size).WellFormed(size)
  {
  }

  lemma PressKeepsWellFormed(e: Editor, key: int, size: nat)
    requires e.WellFormed(size)
    ensures e.Press(key, size).WellFormed(size)
  {
    if key in {LF, Ctrl('P'), Ctrl('N'), KEY_UP_ARROW, KEY_DOWN_ARROW} {
      HistoryKeepsWellFormed(e, size);
    } else {
      EditKeepsWellFormed(e, key, size);
    }
  }

  /** Every character keeps the line printable, in bounds and with room for its null. */
  lemma ReceiveKeepsWellFormed(e: Editor, c: int, size: nat)
    requires e.WellFormed(size)
    ensures e.Receive(c, size).WellFormed(size)
  {
    var d := e.(cr := c == CR);
    PressKeepsWellFormed(d, c, size);
    PressKeepsWellFormed(d, LF, size);
    var (s, key) := EscStep(e.esc, c);
    PressKeepsWellFormed(d.(esc := s), key, size);
    var (s', key') := EscStep(e.esc, LF);
    PressKeepsWellFormed(d.(esc := s'), key', size);
  }

  ghost function ReceiveAll(e: Editor, input: seq<int>, size: nat): (r: Editor)
    requires e.WellFormed(size)
    ensures r.WellFormed(size)
    decreases |input|
  {
    if input == [] then e
    else
      var before := ReceiveAll(e, input[..|input| - 1], size);
      ReceiveKeepsWellFormed(before, input[|input| - 1], size);
      before.Receive(input[|input| - 1], size)
  }

  lemma {:induction false} ReceiveAllConcat(e: Editor, a: seq<int>, b: seq<int>, size: nat)
    requires e.WellFormed(size)
    ensures ReceiveAll(e, a + b, size) == ReceiveAll(ReceiveAll(e, a, size), b, size)
    decreases |b|
  {
    if b == [] {
      assert a + b == a;
    } else {
      assert (a + b)[..|a + b| - 1] == a + b[..|b| - 1];
      ReceiveAllConcat(e, a, b[..|b| - 1], size);
    }
  }

  function Codes(s: seq<char>): (r: seq<int>)
    ensures |r| == |s|
  {
    seq(|s|, i requires 0 <= i < |s| => s[i] as int)
  }

  /** Typing a text at the cursor inserts it there, as far as the line has room. */
  lemma {:induction false} TypingInserts(e: Editor, s: seq<char>, size: nat)
    requires e.WellFormed(size) && e.esc == Outside && AllPrintable(s) && |e.text| + |s| < size
    ensures s != [] ==>
              ReceiveAll(e, Codes(s), size)
              == e.(text := e.text[..e.pos] + s + e.text[e.pos..], pos := e.pos + |s|, cr := false)
    decreases |s|
  {
    if s != [] {
      var k := |s| - 1;
      assert Codes(s)[..k] == Codes(s[..k]);
      TypingInserts(e, s[..k], size);
      var before := ReceiveAll(e, Codes(s[..k]), size);
      if k == 0 {
        assert Codes(s[..k]) == [];
      }
      assert before.text == e.text[..e.pos] + s[..k] + e.text[e.pos..] && before.pos == e.pos + k;
      assert s == s[..k] + [s[k]];
      InsertAfter(e.text, e.pos, s[..k], s[k]);
    }
  }

  lemma InsertAfter(text: seq<char>, p: nat, done: seq<char>, c: char)
    requires p <= |text|
    ensures var t := text[..p] + done + text[p..];
            t[..p + |done|] + [c] + t[p + |done|..] == text[..p] + (done + [c]) + text[p..]
  {
  }

  /** A line typed from scratch and ended by Return is executed verbatim. */
  lemma TypedLineIsExecuted(e: Editor, s: seq<char>, size: nat)
    requires e.WellFormed(size) && e.esc == Outside && e.text == [] && AllPrintable(s) && 0 < |s| < size
    ensures ReceiveAll(e, Codes(s) + [CR], size).commands == e.commands + [s]
  {
    TypingInserts(e, s, size);
    ReceiveAllConcat(e, Codes(s), [CR], size);
    var typed := ReceiveAll(e, Codes(s), size);
    assert typed.text == s;
    assert [CR][..0] == [];
    assert ReceiveAll(typed, [CR], size) == ReceiveAll(typed, [], size).Receive(CR, size);
  }

  /** Backspace undoes a typed character. */
  lemma BackspaceUndoesTyping(e: Editor, c: int, size: nat)
    requires e.WellFormed(size) && e.esc == Outside && IsPrintCode(c)
    ensures |e.text| + 1 < size ==> e.Receive(c, size).Receive(BS, size) == e.(cr := false)
  {
    var typed := e.Receive(c, size);
    if |e.text| + 1 < size {
      assert typed.text[..typed.pos - 1] + typed.text[typed.pos..] == e.text;
    }
  }

  /** Delete is Right followed by Backspace, except at the end of the line. */
  lemma DeleteIsRightThenBackspace(e: Editor)
    requires e.pos < |e.text|
    ensures e.EraseAt() == e.Right().EraseBefore()
  {
  }

  /**
   * Going up from the line being typed shows the row before its own, which is the newest
   * line, and down again brings the line back.
   */
  lemma UpThenDownRestores(e: Editor, size: nat)
    requires e.WellFormed(size) && e.cur == e.next
    ensures |e.hist| > 1 ==> e.Older().text == e.hist[if e.next == 0 then |e.hist| - 1 else e.next - 1]
    ensures var r := e.Older().Newer(); r.text == e.text && r.cur == e.cur && r.next == e.next && r.pos == |e.text|
  {
  }

  lemma EscThenBracket(e: Editor, size: nat)
    requires e.WellFormed(size)
    ensures e.Receive(ESC, size).WellFormed(size)
    ensures e.Receive(ESC, size).Receive('[' as int, size) == e.(esc := Bracket, cr := false)
  {
  }

  /** From any parser state, ESC [ c acts as one character c after an opened bracket. */
  lemma AfterBracket(e: Editor, c: int, size: nat)
    requires e.WellFormed(size)
    ensures ReceiveAll(e, [ESC, '[' as int, c], size) == e.(esc := Bracket, cr := false).Receive(c, size)
  {
    EscThenBracket(e, size);
    var escaped, bracket := e.Receive(ESC, size), e.(esc := Bracket, cr := false);
    ReceiveOne(e, ESC, size);
    ReceiveOne(escaped, '[' as int, size);
    ReceiveOne(bracket, c, size);
    ReceiveAllConcat(e, [ESC], ['[' as int], size);
    ReceiveAllConcat(e, [ESC, '[' as int], [c], size);
    assert [ESC] + ['[' as int] == [ESC, '[' as int];
    assert [ESC, '[' as int] + [c] == [ESC, '[' as int, c];
  }

  /** The cursor keys' three-character sequences work from any parser state. */
  lemma ArrowSequences(e: Editor, c: char, size: nat)
    requires e.WellFormed(size) && 'A' <= c <= 'D'
    ensures var plain := e.(esc := Outside, cr := false);
            ReceiveAll(e, [ESC, '[' as int, c as int], size)
            == match c
               case 'A' => plain.Older()
               case 'B' => plain.Newer()
               case 'C' => plain.Right()
               case _ => plain.Left()
  {
    AfterBracket(e, c as int, size);
    BracketKey(e, c as int, size);
    PressArrow(e.(esc := Outside, cr := false), size);
  }

  lemma BracketKey(e: Editor, c: int, size: nat)
    requires e.WellFormed(size) && 'A' as int <= c <= 'D' as int
    ensures e.(esc := Bracket, cr := false).Receive(c, size)
         == e.(esc := Outside, cr := false).Press(KEY_UP_ARROW + (c - 'A' as int), size)
  {
    var bracket := e.(esc := Bracket, cr := false);
    assert bracket.Receive(c, size) == bracket.Interpret(c, size);
    assert EscStep(Bracket, c) == (Outside, KEY_UP_ARROW + (c - 'A' as int));
  }

  lemma PressArrow(e: Editor, size: nat)
    requires e.WellFormed(size)
    ensures e.Press(KEY_UP_ARROW, size) == e.Older() && e.Press(KEY_DOWN_ARROW, size) == e.Newer()
    ensures e.Press(KEY_RIGHT_ARROW, size) == e.Right() && e.Press(KEY_LEFT_ARROW, size) == e.Left()
  {
  }

  lemma ReceiveOne(e: Editor, c: int, size: nat)
    requires e.WellFormed(size)
    ensures e.Receive(c, size).WellFormed(size)
    ensures ReceiveAll(e, [c], size) == e.Receive(c, size)
  {
    ReceiveKeepsWellFormed(e, c, size);
    assert [c][..0] == [];
    assert ReceiveAll(e, [], size) == e;
  }
}
