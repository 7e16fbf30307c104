/** A document as lines and a cursor, and as one flat text with a position: the view the editor of editor.c is
    measured against. */
module EditorText {
  type Line = seq<char>

  const NL: char := '\n'
  const CR: char := '\r'
  const NUL: char := '\0'
  const MAX_LINES: nat := 128
  const MAX_LINE_LEN: nat := 120

  function InsertAt(s: seq<char>, k: nat, c: char): seq<char>
    requires k <= |s|
  {
    s[..k] + [c] + s[k..]
  }

  function RemoveAt(s: seq<char>, k: nat): seq<char>
    requires k < |s|
  {
    s[..k] + s[k + 1..]
  }

  /** Each line followed by a newline. */
  function Terminated(lines: seq<Line>): seq<char> {
    if lines == [] then [] else Terminated(lines[..|lines| - 1]) + lines[|lines| - 1] + [NL]
  }

  /** Each line preceded by a newline. */
  function Preceded(lines: seq<Line>): seq<char> {
    if lines == [] then [] else [NL] + lines[0] + Preceded(lines[1..])
  }

  /** The lines joined by newlines. */
  function Flat(lines: seq<Line>): seq<char>
    requires |lines| >= 1
  {
    lines[0] + Preceded(lines[1..])
  }

  /** The position of row `row`, column `col` in the flat text. */
  function Position(lines: seq<Line>, row: nat, col: nat): nat
    requires row < |lines|
  {
    |Terminated(lines[..row])| + col
  }

  /** The flat text seen from any row. */
  lemma {:induction false} FlatAt(lines: seq<Line>, row: nat)
    requires row < |lines|
    ensures Flat(lines) == Terminated(lines[..row]) + lines[row] + Preceded(lines[row + 1..])
  {
    if row > 0 {
      FlatAt(lines, row - 1);
      var before := lines[..row];
      assert before[..row - 1] == lines[..row - 1] && before[row - 1] == lines[row - 1];
      var after := lines[row..];
      assert lines[row - 1 + 1..] == after && after[0] == lines[row] && after[1..] == lines[row + 1..];
      assert Preceded(after) == [NL] + lines[row] + Preceded(lines[row + 1..]);
      assert Terminated(before) == Terminated(lines[..row - 1]) + lines[row - 1] + [NL];
    }
  }

  // ---------------------------------------------------------------- edits of lines are edits of the text

  function InsertChar(lines: seq<Line>, row: nat, col: nat, c: char): seq<Line>
    requires row < |lines| && col <= |lines[row]|
  {
    lines[row := InsertAt(lines[row], col, c)]
  }

  function RemoveChar(lines: seq<Line>, row: nat, col: nat): seq<Line>
    requires row < |lines| && col < |lines[row]|
  {
    lines[row := RemoveAt(lines[row], col)]
  }

  function SplitLine(lines: seq<Line>, row: nat, col: nat): seq<Line>
    requires row < |lines| && col <= |lines[row]|
  {
    lines[..row] + [lines[row][..col], lines[row][col..]] + lines[row + 1..]
  }

  /** Line `row` joined to the one before it, as far as the length limit allows. */
  function JoinLine(lines: seq<Line>, row: nat): seq<Line>
    requires 0 < row < |lines| && |lines[row - 1]| <= MAX_LINE_LEN
  {
    lines[..row - 1] + [lines[row - 1] + Fitting(lines[row - 1], lines[row])] + lines[row + 1..]
  }

  /** What of a line still fits behind another. */
  function Fitting(prev: Line, cur: Line): Line
    requires |prev| <= MAX_LINE_LEN
  {
    if |prev| + |cur| <= MAX_LINE_LEN then cur else cur[..MAX_LINE_LEN - |prev|]
  }

  lemma InsertCharIsInsert(lines: seq<Line>, row: nat, col: nat, c: char)
    requires row < |lines| && col <= |lines[row]|
    ensures Position(lines, row, col) <= |Flat(lines)|
    ensures Flat(InsertChar(lines, row, col, c)) == InsertAt(Flat(lines), Position(lines, row, col), c)
    ensures Position(InsertChar(lines, row, col, c), row, col + 1) == Position(lines, row, col) + 1
  {
    var m := InsertChar(lines, row, col, c);
    FlatAt(lines, row);
    FlatAt(m, row);
    assert m[..row] == lines[..row] && m[row + 1..] == lines[row + 1..];
    InsertMiddle(Terminated(lines[..row]), lines[row], Preceded(lines[row + 1..]), col, c);
  }

  lemma InsertMiddle(a: seq<char>, l: seq<char>, b: seq<char>, k: nat, c: char)
    requires k <= |l|
    ensures a + InsertAt(l, k, c) + b == InsertAt(a + l + b, |a| + k, c)
  {}

  lemma RemoveCharIsRemove(lines: seq<Line>, row: nat, col: nat)
    requires row < |lines| && col < |lines[row]|
    ensures Position(lines, row, col) < |Flat(lines)|
    ensures Flat(RemoveChar(lines, row, col)) == RemoveAt(Flat(lines), Position(lines, row, col))
    ensures Position(RemoveChar(lines, row, col), row, col) == Position(lines, row, col)
  {
    var m := RemoveChar(lines, row, col);
    FlatAt(lines, row);
    FlatAt(m, row);
    assert m[..row] == lines[..row] && m[row + 1..] == lines[row + 1..];
    RemoveMiddle(Terminated(lines[..row]), lines[row], Preceded(lines[row + 1..]), col);
  }

  lemma RemoveMiddle(a: seq<char>, l: seq<char>, b: seq<char>, k: nat)
    requires k < |l|
    ensures a + RemoveAt(l, k) + b == RemoveAt(a + l + b, |a| + k)
  {}

  lemma SplitIsNewline(lines: seq<Line>, row: nat, col: nat)
    requires row < |lines| && col <= |lines[row]|
    ensures Position(lines, row, col) <= |Flat(lines)|
    ensures Flat(SplitLine(lines, row, col)) == InsertAt(Flat(lines), Position(lines, row, col), NL)
    ensures Position(SplitLine(lines, row, col), row + 1, 0) == Position(lines, row, col) + 1
  {
    var m, l := SplitLine(lines, row, col), lines[row];
    FlatAt(lines, row);
    FlatAt(m, row + 1);
    assert m[..row + 1][..row] == lines[..row] && m[..row + 1][row] == l[..col];
    assert m[row + 2..] == lines[row + 1..];
    assert Terminated(m[..row + 1]) == Terminated(lines[..row]) + l[..col] + [NL];
    NewlineMiddle(Terminated(lines[..row]), l, Preceded(lines[row + 1..]), col);
  }

  lemma NewlineMiddle(a: seq<char>, l: seq<char>, b: seq<char>, k: nat)
    requires k <= |l|
    ensures a + l[..k] + [NL] + l[k..] + b == InsertAt(a + l + b, |a| + k, NL)
  {}

  /** The flat text around a line break. */
  lemma FlatAtBreak(lines: seq<Line>, row: nat)
    requires 0 < row < |lines|
    ensures Flat(lines)
         == Terminated(lines[..row - 1]) + lines[row - 1] + [NL] + lines[row] + Preceded(lines[row + 1..])
    ensures Position(lines, row, 0) == |Terminated(lines[..row - 1])| + |lines[row - 1]| + 1
  {
    FlatAt(lines, row);
    assert lines[..row][..row - 1] == lines[..row - 1];
  }

  lemma JoinedFlat(lines: seq<Line>, row: nat)
    requires 0 < row < |lines| && |lines[row - 1]| <= MAX_LINE_LEN
    ensures Flat(JoinLine(lines, row))
         == Terminated(lines[..row - 1]) + (lines[row - 1] + Fitting(lines[row - 1], lines[row]))
            + Preceded(lines[row + 1..])
    ensures Position(JoinLine(lines, row), row - 1, |lines[row - 1]|) == Position(lines, row, 0) - 1
  {
    var m := JoinLine(lines, row);
    FlatAt(m, row - 1);
    FlatAtBreak(lines, row);
    assert m[..row - 1] == lines[..row - 1] && m[row..] == lines[row + 1..];
  }

  /** Joining two lines removes one newline from the text exactly if the joined line is within the limit. */
  lemma JoinIsRemoveExactlyWhen(lines: seq<Line>, row: nat)
    requires 0 < row < |lines| && |lines[row - 1]| <= MAX_LINE_LEN
    ensures 0 < Position(lines, row, 0) <= |Flat(lines)|
    ensures Flat(JoinLine(lines, row)) == RemoveAt(Flat(lines), Position(lines, row, 0) - 1)
       <==> |lines[row - 1]| + |lines[row]| <= MAX_LINE_LEN
  {
    FlatAtBreak(lines, row);
    JoinedFlat(lines, row);
    BreakMiddle(Terminated(lines[..row - 1]), lines[row - 1], lines[row], Preceded(lines[row + 1..]));
  }

  lemma BreakMiddle(a: seq<char>, l: seq<char>, r: seq<char>, b: seq<char>)
    ensures a + (l + r) + b == RemoveAt(a + l + [NL] + r + b, |a| + |l|)
  {}

  /** Two lines too long to be joined lose their end: an example that is not a one-character edit. */
  lemma LongJoinLosesText()
    ensures var long := seq(MAX_LINE_LEN, _ => 'x');
      JoinLine([long, ['y']], 1) == [long] && Flat([long]) != RemoveAt(Flat([long, ['y']]), MAX_LINE_LEN)
  {
    var long := seq(MAX_LINE_LEN, _ => 'x');
    var two := [long, ['y']];
    assert two[1..] == [['y']] && Preceded([['y']]) == [NL, 'y'];
    assert |Flat(two)| == MAX_LINE_LEN + 2;
    assert JoinLine(two, 1)[0] == long;
  }

  // ---------------------------------------------------------------- saving and loading

  /** A text as the editor can hold it. */
  predicate Clean(lines: seq<Line>) {
    1 <= |lines| <= MAX_LINES && forall r :: 0 <= r < |lines| ==> CleanLine(lines[r])
  }

  predicate CleanLine(l: Line) {
    |l| <= MAX_LINE_LEN && NL !in l && CR !in l && NUL !in l
  }

  lemma {:induction false} TerminatedIsFlat(lines: seq<Line>)
    requires |lines| >= 1
    ensures Terminated(lines) == Flat(lines) + [NL]
  {
    var n := |lines| - 1;
    FlatAt(lines, n);
    assert lines[n + 1..] == [];
    assert lines[..n + 1] == lines;
  }

  lemma {:induction false} TerminatedLength(lines: seq<Line>)
    requires forall r :: 0 <= r < |lines| ==> |lines[r]| <= MAX_LINE_LEN
    ensures |Terminated(lines)| <= (MAX_LINE_LEN + 1) * |lines|
  {
    if lines != [] { TerminatedLength(lines[..|lines| - 1]); }
  }

  /** The lines after one more byte of a file: carriage returns are dropped, a newline starts a line as long as
      there is room for one, other bytes are kept as long as there is room in the line. */
  function LoadByte(lines: seq<Line>, c: char): seq<Line>
    requires |lines| >= 1
  {
    var n := |lines| - 1;
    if c == CR then lines
    else if c == NL then if |lines| < MAX_LINES then lines + [[]] else lines
    else if |lines[n]| < MAX_LINE_LEN then lines[n := lines[n] + [c]]
    else lines
  }

  function Loaded(bytes: seq<char>): (lines: seq<Line>)
    ensures |lines| >= 1
  {
    if bytes == [] then [[]] else LoadByte(Loaded(bytes[..|bytes| - 1]), bytes[|bytes| - 1])
  }

  lemma {:induction false} LoadedFits(bytes: seq<char>)
    ensures |Loaded(bytes)| <= MAX_LINES
    ensures forall r :: 0 <= r < |Loaded(bytes)| ==> RawLine(Loaded(bytes)[r])
  {
    if bytes != [] { LoadedFits(bytes[..|bytes| - 1]); }
  }

  predicate RawLine(l: Line) {
    |l| <= MAX_LINE_LEN && NL !in l && CR !in l
  }

  lemma {:induction false} LoadLine(pre: seq<char>, done: seq<Line>, l: Line)
    requires Loaded(pre) == done + [[]] && CleanLine(l)
    ensures Loaded(pre + l) == done + [l]
    decreases |l|
  {
    if l == [] {
      assert pre + l == pre;
    } else {
      var k := |l| - 1;
      LoadLine(pre, done, l[..k]);
      assert (pre + l)[..|pre + l| - 1] == pre + l[..k];
      assert l[..k] + [l[k]] == l;
      assert l[k] in l;
    }
  }

  /** Loading what was saved gives the same lines, and an empty one behind them if there is room. */
  lemma {:induction false} ReloadGivesLinesBack(lines: seq<Line>)
    requires Clean(lines)
    ensures Loaded(Terminated(lines)) == if |lines| < MAX_LINES then lines + [[]] else lines
  {
    var n := |lines| - 1;
    var before, l := lines[..n], lines[n];
    if n == 0 {
      assert Loaded([]) == before + [[]];
    } else {
      ReloadGivesLinesBack(before);
    }
    LoadLine(Terminated(before), before, l);
    var text := Terminated(before) + l;
    assert (text + [NL])[..|text|] == text;
    assert before + [l] == lines;
  }

  /** A line as C sees it: up to the first NUL. */
  function UpToNul(l: Line): (r: Line)
    ensures |r| <= |l| && r == l[..|r|] && NUL !in r && (|r| < |l| ==> l[|r|] == NUL)
    ensures NUL !in l ==> r == l
  {
    if l == [] || l[0] == NUL then [] else [l[0]] + UpToNul(l[1..])
  }

  function UpToNuls(lines: seq<Line>): (r: seq<Line>)
    ensures |r| == |lines| && forall i :: 0 <= i < |r| ==> r[i] == UpToNul(lines[i])
  {
    seq(|lines|, i requires 0 <= i < |lines| => UpToNul(lines[i]))
  }

  // ---------------------------------------------------------------- a document with a cursor

  datatype Doc = Doc(lines: seq<Line>, row: nat, col: nat)

  predicate Good(d: Doc) {
    Clean(d.lines) && d.row < |d.lines| && d.col <= |d.lines[d.row]|
  }

  function Pos(d: Doc): nat
    requires Good(d)
  {
    Position(d.lines, d.row, d.col)
  }

  function Typed(d: Doc, c: char): Doc
    requires Good(d)
  {
    if |d.lines[d.row]| >= MAX_LINE_LEN then d
    else Doc(InsertChar(d.lines, d.row, d.col, c), d.row, d.col + 1)
  }

  function Entered(d: Doc): Doc
    requires Good(d)
  {
    if |d.lines| >= MAX_LINES then d
    else Doc(SplitLine(d.lines, d.row, d.col), d.row + 1, 0)
  }

  function Backspaced(d: Doc): Doc
    requires Good(d)
  {
    if d.col > 0 then Doc(RemoveChar(d.lines, d.row, d.col - 1), d.row, d.col - 1)
    else if d.row > 0 then Doc(JoinLine(d.lines, d.row), d.row - 1, |d.lines[d.row - 1]|)
    else d
  }

  function Deleted(d: Doc): Doc
    requires Good(d)
  {
    if d.col < |d.lines[d.row]| then Doc(RemoveChar(d.lines, d.row, d.col), d.row, d.col)
    else if d.row + 1 < |d.lines| then Backspaced(Doc(d.lines, d.row + 1, 0))
    else d
  }

  /** The nearest place there is. */
  function Moved(d: Doc, drow: int, dcol: int): Doc
    requires Good(d)
  {
    var row := Clamp(d.row + drow, |d.lines| - 1);
    Doc(d.lines, row, Clamp(d.col + dcol, |d.lines[row]|))
  }

  function Clamp(x: int, max: nat): (r: nat)
    ensures r <= max && (0 <= x <= max ==> r == x)
  {
    if x < 0 then 0 else if x > max then max else x
  }

  predicate Inserted(t: seq<char>, t': seq<char>, k: int, c: char) {
    0 <= k <= |t| && t' == InsertAt(t, k, c)
  }

  predicate Removed(t: seq<char>, t': seq<char>, k: int) {
    0 <= k < |t| && t' == RemoveAt(t, k)
  }

  /** Typing is a one-character insertion exactly if the line has room; otherwise nothing happens. */
  lemma TypedIsInsertExactlyWhen(d: Doc, c: char)
    requires Good(d) && c != NL && c != CR && c != NUL
    ensures Good(Typed(d, c))
    ensures Inserted(Flat(d.lines), Flat(Typed(d, c).lines), Pos(d), c) && Pos(Typed(d, c)) == Pos(d) + 1
       <==> |d.lines[d.row]| < MAX_LINE_LEN
    ensures |d.lines[d.row]| >= MAX_LINE_LEN ==> Typed(d, c) == d
  {
    InsertCharIsInsert(d.lines, d.row, d.col, c);
  }

  /** The same for the newline, if there is room for a line. */
  lemma EnteredIsInsertExactlyWhen(d: Doc)
    requires Good(d)
    ensures Good(Entered(d))
    ensures Inserted(Flat(d.lines), Flat(Entered(d).lines), Pos(d), NL) && Pos(Entered(d)) == Pos(d) + 1
       <==> |d.lines| < MAX_LINES
    ensures |d.lines| >= MAX_LINES ==> Entered(d) == d
  {
    SplitIsNewline(d.lines, d.row, d.col);
    if |d.lines| < MAX_LINES { SplitIsClean(d.lines, d.row, d.col); }
  }

  lemma SplitIsClean(lines: seq<Line>, row: nat, col: nat)
    requires Clean(lines) && |lines| < MAX_LINES && row < |lines| && col <= |lines[row]|
    ensures Clean(SplitLine(lines, row, col))
  {
    var m := SplitLine(lines, row, col);
    forall r | 0 <= r < |m| ensures CleanLine(m[r]) {
      assert m[r] == if r < row then lines[r] else if r == row then lines[row][..col]
                     else if r == row + 1 then lines[row][col..] else lines[r - 1];
    }
  }

  lemma JoinIsClean(lines: seq<Line>, row: nat)
    requires Clean(lines) && 0 < row < |lines|
    ensures Clean(JoinLine(lines, row))
  {
    var m := JoinLine(lines, row);
    forall r | 0 <= r < |m| ensures CleanLine(m[r]) {
      assert m[r] == if r < row - 1 then lines[r]
                     else if r == row - 1 then lines[row - 1] + Fitting(lines[row - 1], lines[row])
                     else lines[r + 1];
    }
  }

  /** Backspace removes the character before the cursor exactly if there is one and, at the start of a line,
      the joined line is not too long.  Wherever it does anything, the cursor is one place further back. */
  lemma BackspacedIsRemoveExactlyWhen(d: Doc)
    requires Good(d)
    ensures Good(Backspaced(d))
    ensures Removed(Flat(d.lines), Flat(Backspaced(d).lines), Pos(d) - 1)
       <==> d.col > 0 || (d.row > 0 && |d.lines[d.row - 1]| + |d.lines[d.row]| <= MAX_LINE_LEN)
    ensures Pos(d) == 0 ==> Backspaced(d) == d
    ensures Pos(d) > 0 ==> Pos(Backspaced(d)) == Pos(d) - 1
  {
    if d.col > 0 {
      BackspaceInLine(d);
    } else if d.row > 0 {
      BackspaceAtStart(d);
    } else {
      assert d.lines[..0] == [];
    }
  }

  lemma BackspaceInLine(d: Doc)
    requires Good(d) && d.col > 0
    ensures Good(Backspaced(d)) && Pos(d) > 0 && Pos(Backspaced(d)) == Pos(d) - 1
    ensures Removed(Flat(d.lines), Flat(Backspaced(d).lines), Pos(d) - 1)
  {
    RemoveCharIsRemove(d.lines, d.row, d.col - 1);
    RemoveIsClean(d.lines, d.row, d.col - 1);
  }

  lemma BackspaceAtStart(d: Doc)
    requires Good(d) && d.col == 0 && d.row > 0
    ensures Good(Backspaced(d)) && Pos(d) > 0 && Pos(Backspaced(d)) == Pos(d) - 1
    ensures Removed(Flat(d.lines), Flat(Backspaced(d).lines), Pos(d) - 1)
       <==> |d.lines[d.row - 1]| + |d.lines[d.row]| <= MAX_LINE_LEN
  {
    JoinIsRemoveExactlyWhen(d.lines, d.row);
    JoinedFlat(d.lines, d.row);
    JoinIsClean(d.lines, d.row);
  }

  lemma RemoveIsClean(lines: seq<Line>, row: nat, col: nat)
    requires Clean(lines) && row < |lines| && col < |lines[row]|
    ensures Clean(RemoveChar(lines, row, col))
  {}

  /** Delete removes the character at the cursor, a newline under the same condition, and keeps the cursor. */
  lemma DeletedIsRemoveExactlyWhen(d: Doc)
    requires Good(d)
    ensures Good(Deleted(d)) && Pos(Deleted(d)) == Pos(d)
    ensures Removed(Flat(d.lines), Flat(Deleted(d).lines), Pos(d))
       <==> d.col < |d.lines[d.row]|
            || (d.row + 1 < |d.lines| && |d.lines[d.row]| + |d.lines[d.row + 1]| <= MAX_LINE_LEN)
  {
    if d.col < |d.lines[d.row]| {
      RemoveCharIsRemove(d.lines, d.row, d.col);
      RemoveIsClean(d.lines, d.row, d.col);
    } else if d.row + 1 < |d.lines| {
      BackspacedIsRemoveExactlyWhen(Doc(d.lines, d.row + 1, 0));
      FlatAtBreak(d.lines, d.row + 1);
    } else {
      FlatAt(d.lines, d.row);
    }
  }
}
