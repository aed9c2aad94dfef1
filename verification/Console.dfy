// The console line editor of common/console.c: an input buffer, a history and
// an escape parser changed in place, and the bytes printed to keep the
// terminal in step.  Line size and history depth are parameters.
module Console {
  import opened Terminal
  import opened LineEditor

  const PROMPT: seq<char> := "> "

  /** strlen: the position of the first null, or the whole length if there is none. */
  function StrLen(s: seq<char>): (n: nat)
    ensures n <= |s| && (n < |s| ==> s[n] == NUL)
    ensures forall i :: 0 <= i < n ==> s[i] != NUL
  {
    if s == [] || s[0] == NUL then 0 else 1 + StrLen(s[1..])
  }

  function CStr(s: seq<char>): seq<char> {
    s[..StrLen(s)]
  }

  ghost predicate IsLine(s: seq<char>) {
    NUL in s && AllPrintable(CStr(s))
  }

  /** What the terminal should show: the prompt, the text, blanks, and the cursor in the text. */
  ghost predicate Shows(t: Term, text: seq<char>, pos: nat) {
    && t.parse == Ground
    && t.col == |PROMPT| + pos
    && forall i: nat :: Cell(t.row, i) ==
         if i < |PROMPT| then PROMPT[i]
         else if i < |PROMPT| + |text| then text[i - |PROMPT|]
         else ' '
  }

  /** Backspace's output: one back, the rest of the line again, a blank over its old last cell. */
  lemma ShowsErased(t: Term, text: seq<char>, pos: nat)
    requires Shows(t, text, pos) && 0 < pos <= |text| && AllPrintable(text)
    ensures var tail := FeedAll(Feed(t, BACKSPACE), text[pos..]);
            Shows(FeedAll(Feed(tail, ' '), Repeat(BACKSPACE, |text| - pos + 1)), text[..pos - 1] + text[pos..], pos - 1)
  {
    FeedText(Feed(t, BACKSPACE), text[pos..]);
    var tail := FeedAll(Feed(t, BACKSPACE), text[pos..]);
    FeedBackspaces(Feed(tail, ' '), |text| - pos + 1);
  }

  /** Ctrl-K: blanks over the rest of the line and back. */
  lemma ShowsKilled(t: Term, text: seq<char>, pos: nat)
    requires Shows(t, text, pos) && pos <= |text|
    ensures var n := |text| - pos;
            Shows(FeedAll(FeedAll(t, Repeat(' ', n)), Repeat(BACKSPACE, n)), text[..pos], pos)
  {
    FeedText(t, Repeat(' ', |text| - pos));
    FeedBackspaces(FeedAll(t, Repeat(' ', |text| - pos)), |text| - pos);
  }

  /** Typing: the character, the rest of the line after it, and back. */
  lemma ShowsInserted(t: Term, text: seq<char>, pos: nat, c: char)
    requires Shows(t, text, pos) && pos <= |text| && AllPrintable(text) && Printable(c)
    ensures var tail := FeedAll(Write(t, c), text[pos..]);
            Shows(FeedAll(tail, Repeat(BACKSPACE, |text| - pos)), text[..pos] + [c] + text[pos..], pos + 1)
  {
    FeedText(Write(t, c), text[pos..]);
    FeedBackspaces(FeedAll(Write(t, c), text[pos..]), |text| - pos);
  }

  /** A new line of text over an old one, with blanks over whatever the old one had beyond it. */
  lemma ShowsLoaded(t: Term, text: seq<char>, loaded: seq<char>)
    requires Shows(t, text, 0) && AllPrintable(loaded)
    ensures var r := FeedAll(t, loaded);
            if |text| > |loaded| then
              var n := |text| - |loaded|;
              Shows(FeedAll(FeedAll(r, Repeat(' ', n)), Repeat(BACKSPACE, n)), loaded, |loaded|)
            else Shows(r, loaded, |loaded|)
  {
    FeedText(t, loaded);
    var r := FeedAll(t, loaded);
    if |text| > |loaded| {
      assert Shows(r, loaded + text[|loaded|..], |loaded|);
      ShowsKilled(r, loaded + text[|loaded|..], |loaded|);
      assert (loaded + text[|loaded|..])[..|loaded|] == loaded;
    }
  }

  /** After the prompt: the text, and the cursor walked back to its place. */
  lemma ShowsReprinted(t: Term, text: seq<char>, pos: nat)
    requires Shows(t, [], 0) && pos <= |text| && AllPrintable(text)
    ensures Shows(FeedAll(FeedAll(t, text), Repeat(BACKSPACE, |text| - pos)), text, pos)
  {
    FeedText(t, text);
    FeedBackspaces(FeedAll(t, text), |text| - pos);
  }

  method StrZCpy(dest: array<char>, src: array<char>)
    requires dest != src && dest.Length == src.Length > 0 && NUL in src[..]
    modifies dest
    ensures CStr(dest[..]) == old(CStr(src[..])) && NUL in dest[..]
  {
    var i := 0;
    ghost var n := StrLen(src[..]);
    assert n < src.Length;
    while i < dest.Length - 1 && src[i] != NUL
      invariant 0 <= i <= n
      invariant dest[..i] == src[..i]
    {
      dest[i] := src[i];
      i := i + 1;
    }
    assert i == n;
    dest[i] := NUL;
    assert dest[i] in dest[..];
    assert dest[..][..n] == src[..][..n];
    assert forall k :: 0 <= k < n ==> dest[..][k] == src[..][k];
  }

  /** s after memmove(s + to, s + from, n). */
  function Moved(s: seq<char>, to: nat, from: nat, n: nat): (r: seq<char>)
    requires to + n <= |s| && from + n <= |s|
    ensures |r| == |s|
  {
    s[..to] + s[from..from + n] + s[to + n..]
  }

  method MoveChars(a: array<char>, to: nat, from: nat, n: nat)
    requires to + n <= a.Length && from + n <= a.Length
    modifies a
    ensures a[..] == Moved(old(a[..]), to, from, n)
  {
    forall i | to <= i < to + n {
      a[i] := a[i - to + from];
    }
  }

  lemma GapOpened(s: seq<char>, pos: nat, len: nat, c: char)
    requires pos <= len && len + 1 < |s|
    ensures var m := if pos != len then Moved(s, pos + 1, pos, len - pos + 1) else s;
            m[pos := c][len + 1 := NUL][..len + 1] == s[..pos] + [c] + s[pos..len]
  {
  }

  lemma GapClosed(s: seq<char>, m: seq<char>, pos: nat, len: nat)
    requires 0 < pos <= len < |s| && s[len] == NUL
    requires m == if pos != len then Moved(s, pos - 1, pos, len - pos + 1) else s[len - 1 := NUL]
    ensures m[..len - 1] == s[..pos - 1] + s[pos..len] && m[len - 1] == NUL
  {
  }

  /** The parts of a line are those of the buffer it lies in. */
  lemma LineParts(s: seq<char>, len: nat, i: nat, j: nat)
    requires i <= len <= |s| && j <= len
    ensures s[..len][..i] == s[..i] && s[..len][j..] == s[j..len]
  {
  }

  /** Move the rest of the line one place on and put c in the gap. */
  method OpenGap(a: array<char>, pos: nat, len: nat, c: char)
    requires pos <= len && len + 1 < a.Length
    modifies a
    ensures a[..len + 1] == old(a[..pos] + [c] + a[pos..len]) && a[len + 1] == NUL
  {
    GapOpened(a[..], pos, len, c);
    if pos != len {
      MoveChars(a, pos + 1, pos, len - pos + 1);
    }
    a[pos] := c;
    a[len + 1] := NUL;
  }

  /** Move the rest of the line one place back. */
  method CloseGap(a: array<char>, pos: nat, len: nat)
    requires 0 < pos <= len < a.Length && a[len] == NUL
    modifies a
    ensures a[..len - 1] == old(a[..pos - 1] + a[pos..len]) && a[len - 1] == NUL
  {
    ghost var s := a[..];
    if pos != len {
      MoveChars(a, pos - 1, pos, len - pos + 1);
    } else {
      a[len - 1] := NUL;
    }
    GapClosed(s, a[..], pos, len);
  }

  /** The null-terminated string at a + from. */
  method StringAt(a: array<char>, from: nat, ghost len: nat) returns (s: seq<char>)
    requires from <= len < a.Length && a[len] == NUL && AllPrintable(a[..len])
    ensures s == a[from..len]
  {
    var i := from;
    while a[i] != NUL
      invariant from <= i <= len
      decreases len - i
    {
      i := i + 1;
    }
    s := a[from..i];
  }

  /** The rows of an empty history. */
  method EmptyRows(size: nat, depth: nat) returns (rows: seq<array<char>>)
    requires size > 0
    ensures |rows| == depth
    ensures forall i :: 0 <= i < |rows| ==> fresh(rows[i]) && rows[i].Length == size && IsLine(rows[i][..])
    ensures forall i, j :: 0 <= i < j < |rows| ==> rows[i] != rows[j]
  {
    rows := [];
    while |rows| < depth
      invariant |rows| <= depth
      invariant forall i :: 0 <= i < |rows| ==> fresh(rows[i]) && rows[i].Length == size && IsLine(rows[i][..])
      invariant forall i, j :: 0 <= i < j < |rows| ==> rows[i] != rows[j]
    {
      var row := new char[size](_ => NUL);
      assert row[0] in row[..];
      rows := rows + [row];
    }
  }

  class Console {
    const inputBuf: array<char>
    const history: seq<array<char>>
    var inputLen: nat
    var inputPos: nat
    var lastRxWasCr: bool
    var escState: EscState
    var historyNext: nat
    var historyPos: nat
    var screen: Term                      // the terminal, fed every byte the console sends
    ghost var commands: seq<seq<char>>    // the lines handed to the command parser so far

    /** Every history row is a null-terminated printable line of the buffer's size, all distinct. */
    ghost predicate Rows()
      reads history
    {
      && |history| > 0
      && (forall i :: 0 <= i < |history| ==> history[i] != inputBuf && history[i].Length == inputBuf.Length)
      && (forall i :: 0 <= i < |history| ==> IsLine(history[i][..]))
      && (forall i, j :: 0 <= i < j < |history| ==> history[i] != history[j])
    }

    ghost predicate Memory()
      reads this, inputBuf, history
    {
      && Rows()
      && inputPos <= inputLen < inputBuf.Length
      && inputBuf[inputLen] == NUL
      && AllPrintable(inputBuf[..inputLen])
      && historyNext < |history| && historyPos < |history|
    }

    ghost predicate Valid()
      reads this, inputBuf, history
    {
      Memory() && Shows(screen, Text(), inputPos)
    }

    ghost function Text(): seq<char>
      requires inputLen <= inputBuf.Length
      reads this, inputBuf
    {
      inputBuf[..inputLen]
    }

    ghost function Hist(): seq<seq<char>>
      reads history
    {
      seq(|history|, i requires 0 <= i < |history| reads history => CStr(history[i][..]))
    }

    /** The editor this buffer stands for. */
    ghost function Abs(): Editor
      requires inputLen <= inputBuf.Length
      reads this, inputBuf, history
    {
      Editor(Text(), inputPos, escState, lastRxWasCr, Hist(), historyNext, historyPos, commands)
    }

    /** Field by field, Abs() == e. */
    ghost predicate Models(e: Editor)
      requires inputLen <= inputBuf.Length
      reads this, inputBuf, history
    {
      && Text() == e.text && inputPos == e.pos && escState == e.esc && lastRxWasCr == e.cr
      && Hist() == e.hist && historyNext == e.next && historyPos == e.cur && commands == e.commands
    }

    constructor (size: nat, depth: nat)
      requires size > 0 && depth > 0
      ensures Valid() && fresh(inputBuf) && forall a :: a in history ==> fresh(a)
      ensures inputBuf.Length == size && |history| == depth
      ensures Abs().text == [] && Abs().pos == 0 && Abs().esc == Outside && Abs().commands == []
    {
      var line := new char[size](_ => NUL);
      inputBuf := line;
      inputLen, inputPos, lastRxWasCr, escState := 0, 0, false, Outside;
      historyNext, historyPos := 0, 0;
      screen := FRESH_LINE;
      commands := [];
      var rows := EmptyRows(size, depth);
      history := rows;
      new;
      PromptAgain();
      assert inputBuf[0] == NUL;
    }

    method PutChar(c: char)
      modifies this`screen
      ensures screen == Feed(old(screen), c)
    {
      screen := Feed(screen, c);
    }

    method Puts(s: seq<char>)
      modifies this`screen
      ensures screen == FeedAll(old(screen), s)
    {
      for i := 0 to |s|
        invariant screen == FeedAll(old(screen), s[..i])
      {
        assert s[..i + 1][..i] == s[..i];
        PutChar(s[i]);
      }
      assert s[..|s|] == s;
    }

    method RepeatChar(c: char, count: nat)
      modifies this`screen
      ensures screen == FeedAll(old(screen), Repeat(c, count))
    {
      var left := count;
      while left != 0
        invariant 0 <= left <= count
        invariant screen == FeedAll(old(screen), Repeat(c, count - left))
      {
        assert Repeat(c, count - left + 1)[..count - left] == Repeat(c, count - left);
        PutChar(c);
        left := left - 1;
      }
    }

    method PrintRight(n: nat)
      requires screen.parse == Ground && n > 0
      modifies this`screen
      ensures screen == old(screen).(col := old(screen).col + n)
    {
      FeedCursor(screen, n);
      Puts(CursorRight(n));
    }

    method PrintLeft(n: nat)
      requires screen.parse == Ground && 0 < n <= screen.col
      modifies this`screen
      ensures screen == old(screen).(col := old(screen).col - n)
    {
      FeedCursor(screen, n);
      Puts(CursorLeft(n));
    }

    method MoveCursorRight()
      requires Valid()
      modifies this`screen, this`inputPos
      ensures Valid() && Models(old(Abs().Right()))
    {
      if inputPos == inputLen { return; }
      PrintRight(1);
      inputPos := inputPos + 1;
    }

    method MoveCursorEnd()
      requires Valid()
      modifies this`screen, this`inputPos
      ensures Valid() && Models(old(Abs().MoveTo(inputLen)))
    {
      if inputPos == inputLen { return; }
      PrintRight(inputLen - inputPos);
      inputPos := inputLen;
    }

    method MoveCursorLeft()
      requires Valid()
      modifies this`screen, this`inputPos
      ensures Valid() && Models(old(Abs().Left()))
    {
      if inputPos == 0 { return; }
      PrintLeft(1);
      inputPos := inputPos - 1;
    }

    /** Also called while the buffer already holds another line, so only the cursor is described. */
    method MoveCursorBegin()
      requires screen.parse == Ground && screen.col == |PROMPT| + inputPos
      modifies this`screen, this`inputPos
      ensures inputPos == 0
      ensures screen == old(screen).(col := |PROMPT|)
    {
      if inputPos == 0 { return; }
      PrintLeft(inputPos);
      inputPos := 0;
    }

    /** ccputs(input_buf + from). */
    method PrintLine(from: nat)
      requires from <= inputLen < inputBuf.Length && inputBuf[inputLen] == NUL && AllPrintable(inputBuf[..inputLen])
      modifies this`screen
      ensures screen == FeedAll(old(screen), inputBuf[from..inputLen])
    {
      var s := StringAt(inputBuf, from, inputLen);
      Puts(s);
    }

    /** One back, and the rest of the line again. */
    method ReprintRest()
      requires Valid() && inputPos > 0
      modifies this`screen
      ensures screen == FeedAll(Feed(old(screen), BACKSPACE), inputBuf[inputPos..inputLen])
    {
      PutChar(BACKSPACE);
      if inputPos != inputLen {
        PrintLine(inputPos);
      }
    }

    /** The whole erasure, before the counters are updated. */
    method RedrawErased()
      requires Valid() && inputPos > 0
      modifies this`screen, inputBuf
      ensures var shown := old(Text()[..inputPos - 1] + Text()[inputPos..]);
              inputBuf[..inputLen - 1] == shown && Shows(screen, shown, inputPos - 1)
      ensures inputBuf[inputLen - 1] == NUL
    {
      ghost var text := Text();
      ShowsErased(screen, text, inputPos);
      LineParts(inputBuf[..], inputLen, inputPos - 1, inputPos);
      ReprintRest();
      CloseGap(inputBuf, inputPos, inputLen);
      PutChar(' ');
      RepeatChar(BACKSPACE, inputLen - inputPos + 1);
    }

    method HandleBackspace()
      requires Valid()
      modifies this`screen, this`inputPos, this`inputLen, inputBuf
      ensures Valid() && Models(old(Abs().EraseBefore()))
    {
      if inputPos == 0 { return; }
      RedrawErased();
      inputLen := inputLen - 1;
      inputPos := inputPos - 1;
    }

    /** Space over the n characters after the cursor and come back. */
    method BlankAhead(n: nat, ghost text: seq<char>)
      requires n <= |text| && Shows(screen, text, |text| - n)
      modifies this`screen
      ensures Shows(screen, text[..|text| - n], |text| - n)
    {
      ShowsKilled(screen, text, |text| - n);
      RepeatChar(' ', n);
      RepeatChar(BACKSPACE, n);
    }

    method KillToEnd()
      requires Valid()
      modifies this`screen, this`inputLen, inputBuf
      ensures Valid() && Models(old(Abs().KillToEnd()))
    {
      if inputPos == inputLen { return; }
      BlankAhead(inputLen - inputPos, Text());
      inputLen := inputPos;
      inputBuf[inputLen] := NUL;
    }

    method Reprint()
      requires Valid()
      modifies this`screen
      ensures Valid()
    {
      PutChar(FORM_FEED);
      PromptAgain();
      ShowsReprinted(screen, Text(), inputPos);
      PrintLine(0);
      RepeatChar(BACKSPACE, inputLen - inputPos);
    }

    /** Start a new line on the terminal, after whatever ends the current one. */
    method PromptAgain()
      requires screen == FRESH_LINE
      modifies this`screen
      ensures Shows(screen, [], 0)
    {
      Puts(PROMPT);
    }

    method DiscardLine()
      requires Valid()
      modifies this`screen, this`inputPos, this`inputLen, inputBuf
      ensures Valid() && Models(old(Abs().Discard()))
    {
      FeedText(screen, "^C");
      Puts("^C");
      PutChar(NEWLINE);
      inputPos, inputLen := 0, 0;
      inputBuf[0] := NUL;
      PromptAgain();
    }

    method PrintInserted(c: char)
      requires Valid() && Printable(c)
      modifies this`screen
      ensures Shows(screen, Text()[..inputPos] + [c] + Text()[inputPos..], inputPos + 1)
    {
      ShowsInserted(screen, Text(), inputPos, c);
      PutChar(c);
      if inputPos != inputLen {
        PrintLine(inputPos);
        RepeatChar(BACKSPACE, inputLen - inputPos);
      }
    }

    method RedrawInserted(c: char)
      requires Valid() && inputLen + 1 < inputBuf.Length && Printable(c)
      modifies this`screen, inputBuf
      ensures var shown := old(Text()[..inputPos] + [c] + Text()[inputPos..]);
              inputBuf[..inputLen + 1] == shown && Shows(screen, shown, inputPos + 1)
      ensures inputBuf[inputLen + 1] == NUL
    {
      PrintInserted(c);
      OpenGap(inputBuf, inputPos, inputLen, c);
    }

    method InsertChar(c: char)
      requires Valid() && Printable(c)
      modifies this`screen, this`inputPos, this`inputLen, inputBuf
      ensures Valid() && Models(old(Abs().Insert(c, inputBuf.Length)))
    {
      if inputLen >= inputBuf.Length - 1 { return; }
      RedrawInserted(c);
      inputPos := inputPos + 1;
      inputLen := inputLen + 1;
    }

    method SaveHistory()
      requires Memory()
      modifies history[historyNext]
      ensures Memory() && Hist() == old(Hist()[historyNext := Text()])
    {
      assert inputBuf[inputLen] in inputBuf[..];
      StrZCpy(history[historyNext], inputBuf);
    }

    /** Draw a line already loaded into the buffer over the one on the screen. */
    method RedrawLoaded(loaded: seq<char>, ghost text: seq<char>)
      requires Shows(screen, text, inputPos) && |text| == inputLen && AllPrintable(loaded)
      modifies this`screen, this`inputPos
      ensures inputPos == |loaded| && Shows(screen, loaded, |loaded|)
    {
      MoveCursorBegin();
      ShowsLoaded(screen, text, loaded);
      Puts(loaded);
      inputPos := |loaded|;
      if inputLen > inputPos {
        RepeatChar(' ', inputLen - inputPos);
        RepeatChar(BACKSPACE, inputLen - inputPos);
      }
    }

    method LoadHistory(idx: nat)
      requires Valid() && idx == historyPos
      modifies this`screen, this`inputPos, this`inputLen, inputBuf
      ensures Valid() && Models(old(Abs().Load(idx)))
    {
      ghost var text := Text();
      StrZCpy(inputBuf, history[idx]);
      var loaded := inputBuf[..StrLen(inputBuf[..])];
      RedrawLoaded(loaded, text);
      inputLen := inputPos;
    }

    /** Going anywhere from the newest position first saves the line being typed. */
    method StashLine()
      requires Valid()
      modifies history[historyNext]
      ensures Valid() && Models(old(Abs().Stash()))
    {
      if historyPos == historyNext {
        SaveHistory();
      }
    }

    method Recall(idx: nat)
      requires Valid() && idx < |history|
      modifies this`historyPos, this`screen, this`inputPos, this`inputLen, inputBuf
      ensures Valid() && Models(old(Abs().Load(idx)))
    {
      historyPos := idx;
      LoadHistory(historyPos);
    }

    /** Both history keys: the line being typed is saved before another one is loaded. */
    method StashAndRecall(idx: nat)
      requires Valid() && idx < |history|
      modifies this`historyPos, this`screen, this`inputPos, this`inputLen, inputBuf, history[historyNext]
      ensures Valid() && Models(old(Abs().Stash().Load(idx)))
    {
      ghost var e := Abs();
      StashLine();
      assert Abs() == e.Stash();
      Recall(idx);
    }

    method HistoryPrevious()
      requires Valid()
      modifies this`historyPos, this`screen, this`inputPos, this`inputLen, inputBuf, history[historyNext]
      ensures Valid() && Models(old(Abs().Older()))
    {
      var idx := if historyPos == 0 then |history| - 1 else historyPos - 1;
      assert Abs().Older() == Abs().Stash().Load(idx);
      StashAndRecall(idx);
    }

    method HistoryNewer()
      requires Valid()
      modifies this`historyPos, this`screen, this`inputPos, this`inputLen, inputBuf, history[historyNext]
      ensures Valid() && Models(old(Abs().Newer()))
    {
      var idx := if historyPos + 1 >= |history| then 0 else historyPos + 1;
      assert Abs().Newer() == Abs().Stash().Load(idx);
      StashAndRecall(idx);
    }

    /**
     * The command parser and handler: it receives the line, may scribble over the
     * buffer while splitting it into words, and prints whole lines.
     */
    method HandleCommand(scribble: seq<char>, printed: seq<char>)
      requires Memory() && screen == FRESH_LINE
      requires |scribble| == inputBuf.Length && LineOutput(printed)
      modifies this`screen, this`commands, inputBuf
      ensures commands == old(commands) + [old(Text())]
      ensures screen == FRESH_LINE
    {
      commands := commands + [CStr(inputBuf[..])];
      forall i | 0 <= i < inputBuf.Length {
        inputBuf[i] := scribble[i];
      }
      FeedLineOutput(printed);
      Puts(printed);
    }

    /** Record a non-empty line in the history. */
    method RecordLine()
      requires Memory()
      modifies this`historyNext, this`historyPos, history
      ensures Memory()
      ensures var e := old(Abs());
              if e.text == [] then Models(e)
              else var n := (e.next + 1) % |e.hist|; Models(e.(hist := e.hist[e.next := e.text], next := n, cur := n))
    {
      if inputLen != 0 {
        SaveHistory();
        historyNext := (historyNext + 1) % |history|;
        historyPos := historyNext;
      }
    }

    /** Execute the line and start a new one. */
    method ExecuteLine(scribble: seq<char>, printed: seq<char>)
      requires Memory() && screen == FRESH_LINE && |scribble| == inputBuf.Length && LineOutput(printed)
      modifies this`screen, this`commands, this`inputPos, this`inputLen, inputBuf
      ensures Valid()
      ensures var e := old(Abs()); Models(e.(commands := e.commands + [e.text], text := [], pos := 0))
    {
      HandleCommand(scribble, printed);
      inputPos, inputLen := 0, 0;
      inputBuf[0] := NUL;
      PromptAgain();
    }

    method SubmitLine(scribble: seq<char>, printed: seq<char>)
      requires Valid() && |scribble| == inputBuf.Length && LineOutput(printed)
      modifies this, inputBuf, history
      ensures Valid() && Models(old(Abs().Submit()))
    {
      PutChar(NEWLINE);
      RecordLine();
      ExecuteLine(scribble, printed);
    }

    method HandleEsc(c: int) returns (key: int)
      modifies this`escState
      ensures (if key == EATEN then (escState, key) else (Outside, key)) == EscStep(old(escState), c)
    {
      match escState {
      case Start =>
        if c == '[' as int {
          escState := Bracket;
          return EATEN;
        } else if c == 'O' as int {
          escState := BracketO;
          return EATEN;
        }
      case Bracket =>
        if c == '1' as int {
          escState := Bracket1;
          return EATEN;
        } else if c == '3' as int {
          escState := Bracket3;
          return EATEN;
        } else if c == '4' as int {
          escState := Bracket4;
          return EATEN;
        }
        if c == 'A' as int { return KEY_UP_ARROW; }
        else if c == 'B' as int { return KEY_DOWN_ARROW; }
        else if c == 'C' as int { return KEY_RIGHT_ARROW; }
        else if c == 'D' as int { return KEY_LEFT_ARROW; }
      case BracketO =>
        if c == 'F' as int { return KEY_END; }
      case Bracket1 =>
        if c == '~' as int { return KEY_HOME; }
      case Bracket3 =>
        if c == '~' as int { return KEY_DEL; }
      case Bracket4 =>
        if c == '~' as int { return KEY_END; }
      case _ =>
      }
      if IsAlpha(c) || c == '~' as int {
        escState := Outside;
      } else {
        escState := Bad;
      }
      return EATEN;
    }

    /** The key switch of console_handle_char. */
    method HandleKey(c: int, scribble: seq<char>, printed: seq<char>)
      requires Valid() && |scribble| == inputBuf.Length && LineOutput(printed)
      requires EATEN <= c < 256 || KEY_UP_ARROW <= c <= KEY_DEL
      modifies this, inputBuf, history
      ensures Valid() && Models(old(Abs().Press(c, inputBuf.Length)))
    {
      if c == KEY_DEL {
        if inputPos != inputLen {
          DeleteIsRightThenBackspace(Abs());
          MoveCursorRight();
          HandleBackspace();
        }
      } else if c == BS || c == RUBOUT {
        HandleBackspace();
      } else if c == Ctrl('C') {
        DiscardLine();
      } else if c == LF {
        SubmitLine(scribble, printed);
      } else if c == Ctrl('A') || c == KEY_HOME {
        HomeCursor();
      } else if c == Ctrl('B') || c == KEY_LEFT_ARROW {
        MoveCursorLeft();
      } else if c == Ctrl('E') || c == KEY_END {
        MoveCursorEnd();
      } else if c == Ctrl('F') || c == KEY_RIGHT_ARROW {
        MoveCursorRight();
      } else if c == Ctrl('K') {
        KillToEnd();
      } else if c == Ctrl('L') {
        Reprint();
      } else if c == Ctrl('P') || c == KEY_UP_ARROW {
        HistoryPrevious();
      } else if c == Ctrl('N') || c == KEY_DOWN_ARROW {
        HistoryNewer();
      } else if IsPrintCode(c) {
        InsertChar(c as char);
      }
    }

    method HomeCursor()
      requires Valid()
      modifies this`screen, this`inputPos
      ensures Valid() && Models(old(Abs().MoveTo(0)))
    {
      MoveCursorBegin();
    }

    /** Terminal escape sequences, after end-of-line translation. */
    method HandleTranslated(received: int, scribble: seq<char>, printed: seq<char>)
      requires Valid() && |scribble| == inputBuf.Length && LineOutput(printed)
      requires 0 <= received < 256
      modifies this, inputBuf, history
      ensures Valid() && Models(old(Abs().Interpret(received, inputBuf.Length)))
    {
      var c := received;
      if c == ESC {
        escState := Start;
        return;
      } else if escState != Outside {
        c := HandleEsc(c);
        if c != EATEN {
          escState := Outside;
        }
      }
      HandleKey(c, scribble, printed);
    }

    /** One received byte: CR and CRLF become LF. */
    method HandleChar(received: int, scribble: seq<char>, printed: seq<char>)
      requires Valid() && |scribble| == inputBuf.Length && LineOutput(printed)
      requires 0 <= received < 256
      modifies this, inputBuf, history
      ensures Valid() && Models(old(Abs().Receive(received, inputBuf.Length)))
    {
      var c := received;
      if c == CR {
        lastRxWasCr := true;
        c := LF;
      } else if c == LF && lastRxWasCr {
        lastRxWasCr := false;
        return;
      } else {
        lastRxWasCr := false;
      }
      HandleTranslated(c, scribble, printed);
    }

    /**
     * Any input at all: the buffer follows the abstract editor and the terminal
     * shows exactly the prompt and the line, with its cursor in the right place.
     * Each character comes with what a command it might start would do.
     */
    method HandleInput(input: seq<int>, scribble: seq<seq<char>>, printed: seq<seq<char>>)
      requires Valid() && |scribble| == |printed| == |input|
      requires forall i :: 0 <= i < |input| ==>
                 0 <= input[i] < 256 && |scribble[i]| == inputBuf.Length && LineOutput(printed[i])
      modifies this, inputBuf, history
      ensures Valid() && old(Abs()).WellFormed(inputBuf.Length)
      ensures Abs() == ReceiveAll(old(Abs()), input, inputBuf.Length)
    {
      AbsWellFormed();
      for i := 0 to |input|
        invariant Valid() && Abs() == ReceiveAll(old(Abs()), input[..i], inputBuf.Length)
      {
        assert input[..i + 1][..i] == input[..i];
        ghost var e := Abs();
        HandleChar(input[i], scribble[i], printed[i]);
        assert Abs() == e.Receive(input[i], inputBuf.Length) by { SameEditor(e.Receive(input[i], inputBuf.Length)); }
      }
      assert input[..|input|] == input;
    }

    lemma SameEditor(e: Editor)
      requires Memory() && Models(e)
      ensures Abs() == e
    {
    }

    lemma AbsWellFormed()
      requires Memory()
      ensures Abs().WellFormed(inputBuf.Length)
    {
    }
  }
}
