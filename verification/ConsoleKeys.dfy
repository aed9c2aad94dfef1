// What each key does to the input line, told by the bytes that are received and the text
// and cursor that result; and what walking through the history brings back.
module ConsoleKeys {
  import opened Terminal
  import opened LineEditor

  /** The input of one key after another. */
  function Flat(keys: seq<seq<int>>): seq<int> {
    if keys == [] then [] else Flat(keys[..|keys| - 1]) + keys[|keys| - 1]
  }

  // ------------------------------------------------------------- one key

  lemma ReceiveSnoc(e: Editor, input: seq<int>, c: int, size: nat)
    requires e.WellFormed(size)
    ensures ReceiveAll(e, input + [c], size) == ReceiveAll(e, input, size).Receive(c, size)
  {
    assert (input + [c])[..|input|] == input;
  }

  lemma TwoBytes(e: Editor, a: int, b: int, size: nat)
    requires e.WellFormed(size)
    ensures e.Receive(a, size).WellFormed(size)
    ensures ReceiveAll(e, [a, b], size) == e.Receive(a, size).Receive(b, size)
  {
    ReceiveOne(e, a, size);
    ReceiveSnoc(e, [a], b, size);
    assert [a] + [b] == [a, b];
  }

  lemma Escape(e: Editor, size: nat)
    requires e.WellFormed(size)
    ensures e.Receive(0x1B, size) == e.(esc := Start, cr := false)
  {
  }

  lemma OpensO(e: Editor, size: nat)
    requires e.WellFormed(size) && e.esc == Start
    ensures e.Receive('O' as int, size) == e.(esc := BracketO, cr := false)
  {
  }

  lemma OpensDigit(e: Editor, c: int, size: nat)
    requires e.WellFormed(size) && e.esc == Bracket && c in {'1' as int, '3' as int, '4' as int}
    ensures e.Receive(c, size)
         == e.(esc := if c == '1' as int then Bracket1 else if c == '3' as int then Bracket3 else Bracket4, cr := false)
  {
  }

  /** A function key of three bytes, or of four that end in a tilde, from any parser state. */
  lemma EscO(e: Editor, c: int, size: nat)
    requires e.WellFormed(size)
    ensures ReceiveAll(e, [0x1B, 'O' as int, c], size) == e.(esc := BracketO, cr := false).Receive(c, size)
  {
    TwoBytes(e, 0x1B, 'O' as int, size);
    Escape(e, size);
    OpensO(e.(esc := Start, cr := false), size);
    ReceiveSnoc(e, [0x1B, 'O' as int], c, size);
    assert [0x1B, 'O' as int] + [c] == [0x1B, 'O' as int, c];
  }

  lemma EscDigit(e: Editor, c: int, size: nat)
    requires e.WellFormed(size) && c in {'1' as int, '3' as int, '4' as int}
    ensures ReceiveAll(e, [0x1B, '[' as int, c, '~' as int], size)
         == e.(esc := if c == '1' as int then Bracket1 else if c == '3' as int then Bracket3 else Bracket4, cr := false)
             .Receive('~' as int, size)
  {
    AfterBracket(e, c, size);
    OpensDigit(e.(esc := Bracket, cr := false), c, size);
    ReceiveSnoc(e, [0x1B, '[' as int, c], '~' as int, size);
    assert [0x1B, '[' as int, c] + ['~' as int] == [0x1B, '[' as int, c, '~' as int];
  }

  /** Ctrl-A and the Home key. */
  lemma HomeKey(e: Editor, key: seq<int>, size: nat)
    requires e.WellFormed(size) && e.esc == Outside && key in {[0x01], [0x1B, '[' as int, '1' as int, '~' as int]}
    ensures ReceiveAll(e, key, size) == e.(pos := 0, cr := false)
  {
    ReceiveOne(e, 0x01, size);
    EscDigit(e, '1' as int, size);
  }

  /** Ctrl-E and the two End keys. */
  lemma EndKey(e: Editor, key: seq<int>, size: nat)
    requires e.WellFormed(size) && e.esc == Outside
    requires key in {[0x05], [0x1B, 'O' as int, 'F' as int], [0x1B, '[' as int, '4' as int, '~' as int]}
    ensures ReceiveAll(e, key, size) == e.(pos := |e.text|, cr := false)
  {
    ReceiveOne(e, 0x05, size);
    EscO(e, 'F' as int, size);
    EscDigit(e, '4' as int, size);
  }

  /** Ctrl-B and Left. */
  lemma LeftKey(e: Editor, key: seq<int>, size: nat)
    requires e.WellFormed(size) && e.esc == Outside && key in {[0x02], [0x1B, '[' as int, 'D' as int]}
    ensures ReceiveAll(e, key, size) == e.(pos := if e.pos > 0 then e.pos - 1 else 0, cr := false)
  {
    ReceiveOne(e, 0x02, size);
    AfterBracket(e, 'D' as int, size);
  }

  /** Ctrl-F and Right. */
  lemma RightKey(e: Editor, key: seq<int>, size: nat)
    requires e.WellFormed(size) && e.esc == Outside && key in {[0x06], [0x1B, '[' as int, 'C' as int]}
    ensures ReceiveAll(e, key, size) == e.(pos := if e.pos < |e.text| then e.pos + 1 else |e.text|, cr := false)
  {
    ReceiveOne(e, 0x06, size);
    AfterBracket(e, 'C' as int, size);
  }

  /** The Delete key: the character under the cursor goes, at the end of the line nothing does. */
  lemma DeleteKey(e: Editor, size: nat)
    requires e.WellFormed(size) && e.esc == Outside
    ensures ReceiveAll(e, [0x1B, '[' as int, '3' as int, '~' as int], size)
         == e.(text := if e.pos < |e.text| then e.text[..e.pos] + e.text[e.pos + 1..] else e.text, cr := false)
  {
    EscDigit(e, '3' as int, size);
  }

  /** Backspace and rubout: the character before the cursor goes, at the start of the line nothing does. */
  lemma BackspaceKey(e: Editor, c: int, size: nat)
    requires e.WellFormed(size) && e.esc == Outside && c in {0x08, 0x7F}
    ensures ReceiveAll(e, [c], size)
         == if e.pos == 0 then e.(cr := false)
            else e.(text := e.text[..e.pos - 1] + e.text[e.pos..], pos := e.pos - 1, cr := false)
  {
    ReceiveOne(e, c, size);
  }

  /** Ctrl-K ends the line at the cursor. */
  lemma KillKey(e: Editor, size: nat)
    requires e.WellFormed(size) && e.esc == Outside
    ensures ReceiveAll(e, [0x0B], size) == e.(text := e.text[..e.pos], cr := false)
  {
    ReceiveOne(e, 0x0B, size);
  }

  /** Ctrl-C empties the line; nothing is executed or recorded. */
  lemma DiscardKey(e: Editor, size: nat)
    requires e.WellFormed(size) && e.esc == Outside
    ensures ReceiveAll(e, [0x03], size) == e.(text := [], pos := 0, cr := false)
  {
    ReceiveOne(e, 0x03, size);
  }

  /** A character that is printed but for which the line has no room changes nothing. */
  lemma FullLineIgnores(e: Editor, c: int, size: nat)
    requires e.WellFormed(size) && e.esc == Outside && 32 <= c <= 126 && |e.text| + 1 == size
    ensures ReceiveAll(e, [c], size) == e.(cr := false)
  {
    ReceiveOne(e, c, size);
  }

  /** Every other byte outside escape sequences changes nothing; 0x0C asks for a reprint only. */
  lemma OtherBytesAreIgnored(e: Editor, c: int, size: nat)
    requires e.WellFormed(size) && e.esc == Outside && 0 <= c < 256 && !(32 <= c <= 126)
    requires c !in {0x01, 0x02, 0x03, 0x05, 0x06, 0x08, 0x0A, 0x0B, 0x0D, 0x0E, 0x10, 0x1B, 0x7F}
    ensures ReceiveAll(e, [c], size) == e.(cr := false)
  {
    ReceiveOne(e, c, size);
  }

  /** The bytes that complete a known sequence. */
  predicate Completes(s: EscState, c: int) {
    || (s == Bracket && 'A' as int <= c <= 'D' as int)
    || (s == BracketO && c == 'F' as int)
    || (s in {Bracket1, Bracket3, Bracket4} && c == '~' as int)
  }

  /** The bytes that end a sequence: letters and the tilde. */
  predicate Ends(c: int) {
    65 <= c <= 90 || 97 <= c <= 122 || c == 126
  }

  lemma StepSwallows(s: EscState, c: int)
    requires s != Outside && !Completes(s, c)
    ensures EscStep(s, c).1 == EATEN
    ensures EscStep(s, c).0 == Outside <==> Ends(c) && !(s == Start && c == 79)
  {
  }

  lemma EatenKeyDoesNothing(e: Editor, size: nat)
    requires e.WellFormed(size)
    ensures e.Press(EATEN, size) == e
  {
  }

  /**
   * Inside an escape sequence nothing is typed. A byte that does not complete a known
   * sequence changes neither line nor history, and a letter or a tilde ends the sequence -
   * but for the `O` behind ESC, which opens one.
   */
  lemma SequencesAreSwallowed(e: Editor, c: int, size: nat)
    requires e.WellFormed(size) && e.esc != Outside && 0 <= c < 256 && c != 0x1B && c != 0x0A && c != 0x0D
    requires !Completes(e.esc, c)
    ensures var r := ReceiveAll(e, [c], size);
            r == e.(esc := r.esc, cr := false) && (r.esc == Outside <==> Ends(c) && !(e.esc == Start && c == 79))
  {
    ReceiveOne(e, c, size);
    StepSwallows(e.esc, c);
    EatenKeyDoesNothing(e.(esc := EscStep(e.esc, c).0, cr := false), size);
  }

  // ------------------------------------------------------------- lines

  /** Return ends a line, in each of its three spellings. */
  predicate IsReturn(key: seq<int>) {
    key in {[0x0A], [0x0D], [0x0D, 0x0A]}
  }

  /** Return hands the line over and starts an empty one; a line that is not empty becomes the newest in the history. */
  lemma ReturnKey(e: Editor, key: seq<int>, size: nat)
    requires e.WellFormed(size) && e.esc == Outside && IsReturn(key) && !(key == [0x0A] && e.cr)
    ensures var r := ReceiveAll(e, key, size);
            && r.commands == e.commands + [e.text] && r.text == [] && r.pos == 0 && r.esc == Outside && |r.hist| == |e.hist|
            && if e.text == [] then r.hist == e.hist && r.next == e.next && r.cur == e.cur
               else r.hist == e.hist[e.next := e.text] && r.cur == r.next == Ring(e.next + 1, |e.hist|)
  {
    ReceiveOne(e, 0x0A, size);
    ReceiveOne(e, 0x0D, size);
    TwoBytes(e, 0x0D, 0x0A, size);
    WrapsOnce(e.next + 1, |e.hist|);
  }

  /** A place in a ring of n, counted on past its end once. */
  function Ring(i: int, n: nat): int {
    if i >= n then i - n else if i < 0 then i + n else i
  }

  lemma WrapsOnce(i: nat, n: nat)
    requires 0 < n && i <= n
    ensures i % n == Ring(i, n)
  {
  }

  /** The lines of an input that are recorded. */
  function Recorded(lines: seq<seq<char>>): seq<seq<char>> {
    if lines == [] then [] else
      var before, last := Recorded(lines[..|lines| - 1]), lines[|lines| - 1];
      if last == [] then before else before + [last]
  }

  /** Lines typed one after another, each ended by a Return. */
  function Typed(lines: seq<seq<char>>): seq<int> {
    if lines == [] then [] else
      Typed(lines[..|lines| - 1]) + Codes(lines[|lines| - 1]) + [0x0D]
  }

  ghost predicate Typable(s: seq<char>, size: nat) {
    AllPrintable(s) && |s| < size
  }

  /** The history holds these lines, the newest last, as far as it has rows for them beside the line being typed. */
  ghost predicate Remembers(e: Editor, lines: seq<seq<char>>) {
    && e.next < |e.hist|
    && forall k :: 0 < k <= |lines| && k < |e.hist| ==> RowBack(e, k) == lines[|lines| - k]
  }

  /** The row k places before the one for the line being typed. */
  function RowBack(e: Editor, k: nat): seq<char>
    requires e.next < |e.hist| && k < |e.hist|
  {
    e.hist[Ring(e.next - k, |e.hist|)]
  }

  lemma RememberOneMore(e: Editor, r: Editor, lines: seq<seq<char>>, s: seq<char>)
    requires Remembers(e, lines) && r.hist == e.hist[e.next := s] && r.next == Ring(e.next + 1, |e.hist|)
    ensures Remembers(r, lines + [s])
  {
    forall k | 0 < k <= |lines| + 1 && k < |r.hist| ensures RowBack(r, k) == (lines + [s])[|lines| + 1 - k] {
      if k > 1 {
        assert RowBack(r, k) == RowBack(e, k - 1);
      }
    }
  }

  lemma TypeAtEnd(e: Editor, s: seq<char>, size: nat)
    requires e.WellFormed(size) && e.esc == Outside && e.text == [] && Typable(s, size)
    ensures ReceiveAll(e, Codes(s), size) == e.(text := s, pos := |s|, cr := if s == [] then e.cr else false)
  {
    TypingInserts(e, s, size);
  }

  lemma SameRows(e: Editor, r: Editor, lines: seq<seq<char>>)
    requires Remembers(e, lines) && r.hist == e.hist && r.next == e.next
    ensures Remembers(r, lines)
  {
    assert forall k :: 0 < k <= |lines| && k < |e.hist| ==> RowBack(r, k) == RowBack(e, k);
  }

  /** One more line, typed and ended. */
  lemma TypeLine(e: Editor, s: seq<char>, lines: seq<seq<char>>, size: nat)
    requires e.WellFormed(size) && e.esc == Outside && e.text == [] && Typable(s, size) && Remembers(e, lines)
    ensures var r := ReceiveAll(ReceiveAll(e, Codes(s), size), [0x0D], size);
            && r.esc == Outside && r.text == [] && r.pos == 0 && |r.hist| == |e.hist| && r.commands == e.commands + [s]
            && if s == [] then Remembers(r, lines) && (e.cur == e.next ==> r.cur == r.next)
               else Remembers(r, lines + [s]) && r.cur == r.next
  {
    TypeAtEnd(e, s, size);
    var typed := ReceiveAll(e, Codes(s), size);
    ReturnKey(typed, [0x0D], size);
    var r := ReceiveAll(typed, [0x0D], size);
    if s == [] {
      SameRows(e, r, lines);
    } else {
      SameRows(e, typed, lines);
      RememberOneMore(typed, r, lines, s);
    }
  }

  lemma ReceiveLine(e: Editor, before: seq<int>, s: seq<char>, size: nat)
    requires e.WellFormed(size)
    ensures ReceiveAll(e, before + Codes(s) + [0x0D], size)
         == ReceiveAll(ReceiveAll(ReceiveAll(e, before, size), Codes(s), size), [0x0D], size)
  {
    ReceiveAllConcat(e, before, Codes(s), size);
    ReceiveAllConcat(e, before + Codes(s), [0x0D], size);
  }

  /** Lines were executed in order, and the history holds the last ones that were not empty. */
  ghost predicate Rests(e: Editor, r: Editor, lines: seq<seq<char>>) {
    && r.esc == Outside && r.text == [] && r.pos == 0 && |r.hist| == |e.hist| && r.commands == e.commands + lines
    && Remembers(r, Recorded(lines)) && (Recorded(lines) != [] ==> r.cur == r.next)
  }

  lemma RestsSnoc(e: Editor, m: Editor, lines: seq<seq<char>>, s: seq<char>, size: nat)
    requires m.WellFormed(size) && Rests(e, m, lines) && Typable(s, size)
    ensures Rests(e, ReceiveAll(ReceiveAll(m, Codes(s), size), [0x0D], size), lines + [s])
  {
    TypeLine(m, s, Recorded(lines), size);
    assert (lines + [s])[..|lines|] == lines;
    assert e.commands + (lines + [s]) == e.commands + lines + [s];
  }

  lemma TypedSnoc(lines: seq<seq<char>>, s: seq<char>)
    ensures Typed(lines + [s]) == Typed(lines) + Codes(s) + [0x0D]
  {
    assert (lines + [s])[..|lines|] == lines;
  }

  /** After any number of typed lines that is so. */
  lemma {:induction false} LinesAreRemembered(e: Editor, lines: seq<seq<char>>, size: nat)
    requires e.WellFormed(size) && e.esc == Outside && e.text == []
    requires forall i :: 0 <= i < |lines| ==> Typable(lines[i], size)
    ensures Rests(e, ReceiveAll(e, Typed(lines), size), lines)
    decreases |lines|
  {
    if lines == [] {
      assert e.commands + lines == e.commands;
    } else {
      var init, last := lines[..|lines| - 1], lines[|lines| - 1];
      LinesAreRemembered(e, init, size);
      RestsSnoc(e, ReceiveAll(e, Typed(init), size), init, last, size);
      ReceiveLine(e, Typed(init), last, size);
      TypedSnoc(init, last);
      assert lines == init + [last];
    }
  }

  // ------------------------------------------------------------- walking through the history

  /** Ctrl-P and Up, Ctrl-N and Down. */
  predicate IsUp(key: seq<int>) {
    key in {[0x10], [0x1B, '[' as int, 'A' as int]}
  }

  predicate IsDown(key: seq<int>) {
    key in {[0x0E], [0x1B, '[' as int, 'B' as int]}
  }

  ghost predicate AllUp(keys: seq<seq<int>>) {
    forall i :: 0 <= i < |keys| ==> IsUp(keys[i])
  }

  ghost predicate AllDown(keys: seq<seq<int>>) {
    forall i :: 0 <= i < |keys| ==> IsDown(keys[i])
  }

  /** The k-th newest line is shown, or for k = 0 the one being typed, which is kept meanwhile. */
  ghost predicate Shown(e: Editor, lines: seq<seq<char>>, typed: seq<char>, k: nat, size: nat) {
    && e.WellFormed(size) && e.esc == Outside && Remembers(e, lines)
    && k <= |lines| && k < |e.hist| && e.cur == Ring(e.next - k, |e.hist|)
    && e.text == Line(lines, typed, k)
    && e.pos == |e.text| && (k > 0 ==> e.hist[e.next] == typed)
  }

  function Line(lines: seq<seq<char>>, typed: seq<char>, k: nat): seq<char>
    requires k <= |lines|
  {
    if k == 0 then typed else lines[|lines| - k]
  }

  /** A row is shown; the line being typed, if it is that, was put into its own row first. */
  function Showing(e: Editor, i: nat): Editor
    requires e.next < |e.hist| && i < |e.hist|
  {
    var rows := if e.cur == e.next then e.hist[e.next := e.text] else e.hist;
    e.(hist := rows, cur := i, text := rows[i], pos := |rows[i]|, cr := false)
  }

  lemma OlderShows(e: Editor, size: nat)
    requires e.WellFormed(size)
    ensures e.(cr := false).Older() == Showing(e, Ring(e.cur - 1, |e.hist|))
    ensures e.(cr := false).Newer() == Showing(e, Ring(e.cur + 1, |e.hist|))
  {
  }

  lemma ControlWalks(e: Editor, size: nat)
    requires e.WellFormed(size) && e.esc == Outside
    ensures e.Receive(0x10, size) == e.(cr := false).Older() && e.Receive(0x0E, size) == e.(cr := false).Newer()
  {
  }

  /** Up shows the row before, and the last row behind the first. */
  lemma UpKey(e: Editor, key: seq<int>, size: nat)
    requires e.WellFormed(size) && e.esc == Outside && IsUp(key)
    ensures ReceiveAll(e, key, size) == Showing(e, Ring(e.cur - 1, |e.hist|))
  {
    OlderShows(e, size);
    if key == [0x10] {
      ReceiveOne(e, 0x10, size);
      ControlWalks(e, size);
    } else {
      ArrowSequences(e, 'A', size);
      assert e.(esc := Outside, cr := false) == e.(cr := false);
    }
  }

  /** Down shows the row after, and the first row behind the last. */
  lemma DownKey(e: Editor, key: seq<int>, size: nat)
    requires e.WellFormed(size) && e.esc == Outside && IsDown(key)
    ensures ReceiveAll(e, key, size) == Showing(e, Ring(e.cur + 1, |e.hist|))
  {
    OlderShows(e, size);
    if key == [0x0E] {
      ReceiveOne(e, 0x0E, size);
      ControlWalks(e, size);
    } else {
      ArrowSequences(e, 'B', size);
      assert e.(esc := Outside, cr := false) == e.(cr := false);
    }
  }

  /** Showing a row forgets no line. */
  lemma ShowingRemembers(e: Editor, i: nat, lines: seq<seq<char>>)
    requires Remembers(e, lines) && i < |e.hist|
    ensures Remembers(Showing(e, i), lines)
    ensures forall k :: 0 < k <= |lines| && k < |e.hist| ==> RowBack(Showing(e, i), k) == RowBack(e, k)
  {
    var r := Showing(e, i);
    forall k | 0 < k <= |lines| && k < |e.hist| ensures RowBack(r, k) == RowBack(e, k) {
      assert Ring(e.next - k, |e.hist|) != e.next;
    }
  }

  /** The row j places back shows the j-th newest line, or what was being typed. */
  lemma ShowsLine(e: Editor, r: Editor, lines: seq<seq<char>>, typed: seq<char>, k: nat, j: nat, size: nat)
    requires Shown(e, lines, typed, k, size) && j <= |lines| && j < |e.hist| && j != k
    requires r == Showing(e, Ring(e.next - j, |e.hist|)) && r.WellFormed(size)
    ensures Shown(r, lines, typed, j, size)
  {
    ShowingRemembers(e, Ring(e.next - j, |e.hist|), lines);
    if j > 0 {
      assert r.text == RowBack(e, j);
    }
  }

  lemma RingSteps(next: nat, k: nat, n: nat)
    requires k < n && next < n
    ensures k + 1 < n ==> Ring(Ring(next - k, n) - 1, n) == Ring(next - (k + 1), n)
    ensures k > 0 ==> Ring(Ring(next - k, n) + 1, n) == Ring(next - (k - 1), n)
  {
  }

  lemma OneUp(e: Editor, key: seq<int>, lines: seq<seq<char>>, typed: seq<char>, k: nat, size: nat)
    requires Shown(e, lines, typed, k, size) && IsUp(key) && k < |lines| && k + 1 < |e.hist|
    ensures var r := ReceiveAll(e, key, size);
            Shown(r, lines, typed, k + 1, size) && |r.hist| == |e.hist| && r.commands == e.commands
  {
    UpKey(e, key, size);
    RingSteps(e.next, k, |e.hist|);
    ShowsLine(e, ReceiveAll(e, key, size), lines, typed, k, k + 1, size);
  }

  lemma OneDown(e: Editor, key: seq<int>, lines: seq<seq<char>>, typed: seq<char>, k: nat, size: nat)
    requires Shown(e, lines, typed, k, size) && IsDown(key) && k > 0
    ensures var r := ReceiveAll(e, key, size); Shown(r, lines, typed, k - 1, size) && r.commands == e.commands
  {
    DownKey(e, key, size);
    RingSteps(e.next, k, |e.hist|);
    ShowsLine(e, ReceiveAll(e, key, size), lines, typed, k, k - 1, size);
  }

  lemma ThenUp(e: Editor, before: seq<int>, key: seq<int>, lines: seq<seq<char>>, typed: seq<char>, k: nat, size: nat)
    requires e.WellFormed(size) && Shown(ReceiveAll(e, before, size), lines, typed, k, size) && IsUp(key) && k < |lines|
    requires |ReceiveAll(e, before, size).hist| == |e.hist| > k + 1
    ensures var m, r := ReceiveAll(e, before, size), ReceiveAll(e, before + key, size);
            Shown(r, lines, typed, k + 1, size) && |r.hist| == |e.hist| && r.commands == m.commands
  {
    ReceiveAllConcat(e, before, key, size);
    OneUp(ReceiveAll(e, before, size), key, lines, typed, k, size);
  }

  lemma ThenDown(e: Editor, before: seq<int>, key: seq<int>, lines: seq<seq<char>>, typed: seq<char>, k: nat, size: nat)
    requires e.WellFormed(size) && Shown(ReceiveAll(e, before, size), lines, typed, k, size) && IsDown(key) && k > 0
    ensures var m, r := ReceiveAll(e, before, size), ReceiveAll(e, before + key, size);
            Shown(r, lines, typed, k - 1, size) && r.commands == m.commands
  {
    ReceiveAllConcat(e, before, key, size);
    OneDown(ReceiveAll(e, before, size), key, lines, typed, k, size);
  }

  lemma AllButLast(keys: seq<seq<int>>)
    requires keys != []
    ensures var init, last := keys[..|keys| - 1], keys[|keys| - 1];
            && |init| == |keys| - 1 && Flat(keys) == Flat(init) + last
            && (AllUp(keys) ==> AllUp(init) && IsUp(last)) && (AllDown(keys) ==> AllDown(init) && IsDown(last))
  {
  }

  lemma {:induction false} Ups(e: Editor, keys: seq<seq<int>>, lines: seq<seq<char>>, typed: seq<char>, size: nat)
    requires Shown(e, lines, typed, 0, size) && AllUp(keys) && |keys| <= |lines| && |keys| < |e.hist|
    ensures var r := ReceiveAll(e, Flat(keys), size);
            Shown(r, lines, typed, |keys|, size) && |r.hist| == |e.hist| && r.commands == e.commands
    decreases |keys|
  {
    if keys != [] {
      var init, last := keys[..|keys| - 1], keys[|keys| - 1];
      AllButLast(keys);
      Ups(e, init, lines, typed, size);
      ThenUp(e, Flat(init), last, lines, typed, |keys| - 1, size);
    }
  }

  lemma {:induction false} Downs(e: Editor, keys: seq<seq<int>>, lines: seq<seq<char>>, typed: seq<char>, k: nat, size: nat)
    requires Shown(e, lines, typed, k, size) && AllDown(keys) && |keys| <= k
    ensures var r := ReceiveAll(e, Flat(keys), size); Shown(r, lines, typed, k - |keys|, size) && r.commands == e.commands
    decreases |keys|
  {
    if keys != [] {
      var init, last := keys[..|keys| - 1], keys[|keys| - 1];
      AllButLast(keys);
      Downs(e, init, lines, typed, k, size);
      ThenDown(e, Flat(init), last, lines, typed, k + 1 - |keys|, size);
    }
  }

  /** Up some times, and Down not more often, from the line being typed. */
  lemma UpsThenDowns(e: Editor, ups: seq<seq<int>>, downs: seq<seq<int>>, lines: seq<seq<char>>, typed: seq<char>, size: nat)
    requires Shown(e, lines, typed, 0, size) && AllUp(ups) && AllDown(downs)
    requires |downs| <= |ups| <= |lines| && |ups| < |e.hist|
    ensures var r := ReceiveAll(e, Flat(ups) + Flat(downs), size);
            Shown(r, lines, typed, |ups| - |downs|, size) && r.commands == e.commands
  {
    Ups(e, ups, lines, typed, size);
    Downs(ReceiveAll(e, Flat(ups), size), downs, lines, typed, |ups|, size);
    ReceiveAllConcat(e, Flat(ups), Flat(downs), size);
  }

  /** What is typed behind some lines. */
  lemma LinesThenText(e: Editor, lines: seq<seq<char>>, typed: seq<char>, size: nat)
    requires e.WellFormed(size) && e.esc == Outside && e.text == [] && Typable(typed, size)
    requires forall i :: 0 <= i < |lines| ==> Typable(lines[i], size)
    ensures var r, shown := ReceiveAll(e, Typed(lines) + Codes(typed), size), Recorded(lines);
            && r.text == typed && r.pos == |typed| && |r.hist| == |e.hist| && r.commands == e.commands + lines
            && (shown != [] ==> Shown(r, shown, typed, 0, size))
  {
    LinesAreRemembered(e, lines, size);
    var r := ReceiveAll(e, Typed(lines), size);
    ReceiveAllConcat(e, Typed(lines), Codes(typed), size);
    TypeAtEnd(r, typed, size);
    SameRows(r, ReceiveAll(r, Codes(typed), size), Recorded(lines));
  }

  /**
   * The history as its user knows it. Lines are typed and ended, another text is typed, then
   * Up is pressed some times and Down not more often. What shows is the line that many steps
   * back among those that were not empty - the text being typed for no step - with the cursor
   * at its end. The history has rows for all but one step.
   */
  lemma HistoryWalk(e: Editor, lines: seq<seq<char>>, typed: seq<char>, ups: seq<seq<int>>, downs: seq<seq<int>>, size: nat)
    requires e.WellFormed(size) && e.esc == Outside && e.text == [] && Typable(typed, size)
    requires forall i :: 0 <= i < |lines| ==> Typable(lines[i], size)
    requires AllUp(ups) && AllDown(downs) && |downs| <= |ups| <= |Recorded(lines)| && |ups| < |e.hist|
    ensures var r := ReceiveAll(e, Typed(lines) + Codes(typed) + Flat(ups) + Flat(downs), size);
            && r.text == Line(Recorded(lines), typed, |ups| - |downs|)
            && r.pos == |r.text| && r.commands == e.commands + lines
  {
    var before, walk := Typed(lines) + Codes(typed), Flat(ups) + Flat(downs);
    LinesThenText(e, lines, typed, size);
    ReceiveAllConcat(e, before, walk, size);
    assert before + Flat(ups) + Flat(downs) == before + walk;
    if ups == [] {
      assert walk == [];
    } else {
      UpsThenDowns(ReceiveAll(e, before, size), ups, downs, Recorded(lines), typed, size);
    }
  }
}
