/** The line buffer of editor.c: 128 rows of 121 characters, each a NUL-terminated line, with a cursor.
    Drawing is left out; reading and writing the file are parameters. */
module Editor {
  import opened EditorText

  const ROW_SIZE: nat := MAX_LINE_LEN + 1
  const FILE_BUFFER_SIZE: nat := 16384

  type Row = seq<char>

  /** The row holds the line. */
  predicate Holds(row: Row, l: Line) {
    |row| == ROW_SIZE && |l| <= MAX_LINE_LEN && row[..|l|] == l && row[|l|] == NUL && NUL !in l
  }

  // ---------------------------------------------------------------- work within one row

  /** strlen */
  method StrLen(row: Row, ghost l: Line) returns (len: nat)
    requires Holds(row, l)
    ensures len == |l|
  {
    assert forall k :: 0 <= k < |l| ==> row[k] == l[k];
    len := 0;
    while row[len] != NUL
      invariant len <= |l|
      decreases |l| - len
    {
      len := len + 1;
    }
  }

  /** The loop of insert_char. */
  method InsertInRow(row: Row, ghost l: Line, col: nat, len: nat, c: char) returns (r: Row)
    requires Holds(row, l) && len == |l| < MAX_LINE_LEN && col <= len && c != NUL
    ensures Holds(r, InsertAt(l, col, c))
  {
    r := row;
    for i := len + 1 downto col
      invariant |r| == ROW_SIZE
      invariant forall k :: 0 <= k <= i ==> r[k] == row[k]
      invariant forall k :: i < k <= len + 1 ==> r[k] == row[k - 1]
    {
      r := r[i + 1 := r[i]];
    }
    r := r[col := c];
    ghost var m := InsertAt(l, col, c);
    assert forall k :: 0 <= k < |l| ==> row[k] == l[k];
    forall k | 0 <= k < |m| ensures r[k] == m[k] {}
    assert r[..|m|] == m;
  }

  /** The loops of backspace_char and delete_char that close the gap at `col`. */
  method RemoveInRow(row: Row, ghost l: Line, col: nat, len: nat) returns (r: Row)
    requires Holds(row, l) && len == |l| && col < len
    ensures Holds(r, RemoveAt(l, col))
  {
    r := row;
    for i := col to len
      invariant |r| == ROW_SIZE
      invariant forall k :: col <= k < i ==> r[k] == row[k + 1]
      invariant forall k :: 0 <= k < col || i <= k < ROW_SIZE ==> r[k] == row[k]
    {
      r := r[i := r[i + 1]];
    }
    ghost var m := RemoveAt(l, col);
    assert forall k :: 0 <= k < |l| ==> row[k] == l[k];
    forall k | 0 <= k < |m| ensures r[k] == m[k] {}
    assert r[..|m|] == m;
  }

  /** copy_string from column `col` of a row into another row */
  method CopyTail(dest: Row, src: Row, ghost l: Line, col: nat) returns (r: Row)
    requires |dest| == ROW_SIZE && Holds(src, l) && col <= |l|
    ensures Holds(r, l[col..])
  {
    r := dest;
    var i := 0;
    assert forall k :: 0 <= k < |l| ==> src[k] == l[k];
    while src[col + i] != NUL && i < MAX_LINE_LEN
      invariant |r| == ROW_SIZE && col + i <= |l|
      invariant forall k :: 0 <= k < i ==> r[k] == l[col + k]
      decreases |l| - i
    {
      r := r[i := src[col + i]];
      i := i + 1;
    }
    assert col + i == |l|;
    r := r[i := NUL];
    assert r[..i] == l[col..];
  }

  /** The loop of backspace_char that appends the current line to the previous one. */
  method AppendRow(prev: Row, cur: Row, ghost p: Line, ghost l: Line, prevLen: nat, curLen: nat) returns (r: Row)
    requires Holds(prev, p) && Holds(cur, l) && prevLen == |p| && curLen == |l|
    ensures Holds(r, p + Fitting(p, l))
  {
    var copyLen := MAX_LINE_LEN - prevLen;
    if copyLen > curLen {
      copyLen := curLen;
    }
    r := prev;
    for i := 0 to copyLen
      invariant |r| == ROW_SIZE
      invariant forall k :: 0 <= k < prevLen ==> r[k] == prev[k]
      invariant forall k :: 0 <= k < i ==> r[prevLen + k] == cur[k]
    {
      r := r[prevLen + i := cur[i]];
    }
    r := r[prevLen + copyLen := NUL];
    ghost var m := p + Fitting(p, l);
    assert forall k :: 0 <= k < |p| ==> prev[k] == p[k];
    assert forall k :: 0 <= k < |l| ==> cur[k] == l[k];
    assert |m| == prevLen + copyLen;
    forall k | 0 <= k < |m| ensures r[k] == m[k] {
      if k >= prevLen { assert r[prevLen + (k - prevLen)] == cur[k - prevLen]; }
    }
    assert r[..|m|] == m;
  }

  // ---------------------------------------------------------------- the editor

  datatype Key = Newline | Backspace | Delete | Up | Down | Left | Right | Other(c: char)

  /** What a key does to the document; other keys are ignored unless they are printable. */
  function Pressed(d: Doc, k: Key): Doc
    requires Good(d)
  {
    match k
    case Newline => Entered(d)
    case Backspace => Backspaced(d)
    case Delete => Deleted(d)
    case Up => Moved(d, -1, 0)
    case Down => Moved(d, 1, 0)
    case Left => Moved(d, 0, -1)
    case Right => Moved(d, 0, 1)
    case Other(c) => if ' ' <= c <= '~' then Typed(d, c) else d
  }

  lemma PressedIsGood(d: Doc, k: Key)
    requires Good(d)
    ensures Good(Pressed(d, k))
  {
    match k {
      case Newline => EnteredIsInsertExactlyWhen(d);
      case Backspace => BackspacedIsRemoveExactlyWhen(d);
      case Delete => DeletedIsRemoveExactlyWhen(d);
      case Other(c) => if ' ' <= c <= '~' { TypedIsInsertExactlyWhen(d, c); }
      case _ =>
    }
  }

  function PressedAll(d: Doc, keys: seq<Key>): (r: Doc)
    requires Good(d)
    ensures Good(r)
    decreases |keys|
  {
    if keys == [] then d else
      var before := PressedAll(d, keys[..|keys| - 1]);
      PressedIsGood(before, keys[|keys| - 1]);
      Pressed(before, keys[|keys| - 1])
  }

  /** Rows `0..n` hold the lines. */
  predicate AllHold(rows: seq<Row>, lines: seq<Line>) {
    && |rows| == MAX_LINES && |lines| <= MAX_LINES
    && (forall r :: 0 <= r < MAX_LINES ==> |rows[r]| == ROW_SIZE)
    && forall r :: 0 <= r < |lines| ==> Holds(rows[r], lines[r])
  }

  class EditBuffer {
    const lines: array<Row>
    var lineCount: nat
    var row: nat
    var col: nat
    var dirty: bool
    /** the document in the buffer */
    ghost var doc: Doc

    ghost predicate Valid()
      reads this, lines
    {
      && lines.Length == MAX_LINES && AllHold(lines[..], doc.lines)
      && Good(doc) && |doc.lines| == lineCount && row == doc.row && col == doc.col
    }

    /** clear_editor_state on a new buffer */
    constructor ()
      ensures Valid() && doc == Doc([[]], 0, 0) && fresh(lines) && !dirty
    {
      lines := new Row[MAX_LINES](_ => seq(ROW_SIZE, _ => NUL));
      lineCount, row, col, dirty, doc := 1, 0, 0, false, Doc([[]], 0, 0);
    }

    /** Replacing one row by one that holds the new line. */
    lemma SetRow(rows: seq<Row>, ls: seq<Line>, r: nat, row': Row, l: Line)
      requires AllHold(rows, ls) && r < |ls| && Holds(row', l)
      ensures AllHold(rows[r := row'], ls[r := l])
    {}

    method InsertChar(c: char)
      requires Valid() && c != NUL && c != NL && c != CR
      modifies this, lines
      ensures Valid() && doc == Typed(old(doc), c)
    {
      TypedIsInsertExactlyWhen(doc, c);
      var len := StrLen(lines[row], doc.lines[row]);
      if len >= MAX_LINE_LEN {
        return;
      }
      var r := InsertInRow(lines[row], doc.lines[row], col, len, c);
      SetRow(lines[..], doc.lines, row, r, InsertAt(doc.lines[row], col, c));
      lines[row] := r;
      doc := Typed(doc, c);
      col := col + 1;
      dirty := true;
    }

    /** The loop of insert_newline that makes room for a line. */
    method ShiftDown(from: nat)
      requires lines.Length == MAX_LINES && from <= lineCount < MAX_LINES
      modifies lines
      ensures forall r :: 0 <= r < MAX_LINES ==> lines[r] == old(lines[if from < r <= lineCount then r - 1 else r])
    {
      for r := lineCount + 1 downto from + 1
        invariant forall k :: 0 <= k < MAX_LINES ==> lines[k] == old(lines[if r <= k <= lineCount then k - 1 else k])
      {
        lines[r] := lines[r - 1];
      }
    }

    /** The loop of backspace_char that closes the gap a joined line leaves. */
    method ShiftUp(from: nat)
      requires lines.Length == MAX_LINES && from < lineCount <= MAX_LINES
      modifies lines
      ensures forall r :: 0 <= r < MAX_LINES ==> lines[r] == old(lines[if from <= r < lineCount - 1 then r + 1 else r])
    {
      for r := from to lineCount - 1
        invariant forall k :: 0 <= k < MAX_LINES ==> lines[k] == old(lines[if from <= k < r then k + 1 else k])
      {
        lines[r] := lines[r + 1];
      }
    }

    /** Cut the current row at the cursor, the rows below moving down. */
    method SplitHere()
      requires Valid() && lineCount < MAX_LINES
      modifies lines
      ensures AllHold(lines[..], SplitLine(doc.lines, row, col))
    {
      ghost var rows := lines[..];
      ShiftDown(row + 1);
      var tail := CopyTail(lines[row + 1], lines[row], doc.lines[row], col);
      lines[row + 1] := tail;
      lines[row] := lines[row][col := NUL];
      SplitRows(rows, lines[..], doc.lines, row, col);
    }

    method InsertNewline()
      requires Valid()
      modifies this, lines
      ensures Valid() && doc == Entered(old(doc))
    {
      PressedIsGood(doc, Newline);
      if lineCount >= MAX_LINES {
        return;
      }
      SplitHere();
      doc := Entered(doc);
      lineCount := lineCount + 1;
      row := row + 1;
      col := 0;
      dirty := true;
    }

    /** Take one character out of the current row. */
    method RemoveHere(at: nat, len: nat)
      requires Valid() && at < len == |doc.lines[row]|
      modifies lines
      ensures AllHold(lines[..], RemoveChar(doc.lines, row, at))
    {
      var r := RemoveInRow(lines[row], doc.lines[row], at, len);
      SetRow(lines[..], doc.lines, row, r, RemoveAt(doc.lines[row], at));
      lines[row] := r;
    }

    /** Append the current row to the one before it, the rows below moving up. */
    method JoinHere() returns (prevLen: nat)
      requires Valid() && row > 0
      modifies lines
      ensures AllHold(lines[..], JoinLine(doc.lines, row)) && prevLen == |doc.lines[row - 1]|
    {
      ghost var rows := lines[..];
      prevLen := StrLen(lines[row - 1], doc.lines[row - 1]);
      var curLen := StrLen(lines[row], doc.lines[row]);
      var r := AppendRow(lines[row - 1], lines[row], doc.lines[row - 1], doc.lines[row], prevLen, curLen);
      lines[row - 1] := r;
      ShiftUp(row);
      JoinRows(rows, lines[..], doc.lines, row);
    }

    method BackspaceChar()
      requires Valid()
      modifies this, lines
      ensures Valid() && doc == Backspaced(old(doc))
    {
      PressedIsGood(doc, Backspace);
      if col > 0 {
        var len := StrLen(lines[row], doc.lines[row]);
        RemoveHere(col - 1, len);
        doc := Backspaced(doc);
        col := col - 1;
        dirty := true;
        return;
      }
      if row > 0 {
        var prevLen := JoinHere();
        doc := Backspaced(doc);
        lineCount := lineCount - 1;
        row := row - 1;
        col := prevLen;
        dirty := true;
      }
    }

    method DeleteChar()
      requires Valid()
      modifies this, lines
      ensures Valid() && doc == Deleted(old(doc))
    {
      PressedIsGood(doc, Delete);
      var len := StrLen(lines[row], doc.lines[row]);
      if col < len {
        RemoveHere(col, len);
        doc := Deleted(doc);
        dirty := true;
        return;
      }
      if row < lineCount - 1 {
        row := row + 1;
        col := 0;
        doc := Doc(doc.lines, row, 0);
        BackspaceChar();
      }
    }

    method MoveCursor(drow: int, dcol: int)
      requires Valid()
      modifies this
      ensures Valid() && doc == Moved(old(doc), drow, dcol) && dirty == old(dirty)
    {
      var newRow := row + drow;
      if newRow < 0 {
        newRow := 0;
      }
      if newRow >= lineCount {
        newRow := lineCount - 1;
      }
      var newCol := col + dcol;
      if newCol < 0 {
        newCol := 0;
      }
      var len := StrLen(lines[newRow], doc.lines[newRow]);
      if newCol > len {
        newCol := len;
      }
      row, col := newRow, newCol;
      doc := Doc(doc.lines, newRow, newCol);
    }

    /** One key in editor_open. */
    method Press(k: Key)
      requires Valid()
      modifies this, lines
      ensures Valid() && doc == Pressed(old(doc), k)
    {
      match k {
        case Newline => InsertNewline();
        case Backspace => BackspaceChar();
        case Delete => DeleteChar();
        case Up => MoveCursor(-1, 0);
        case Down => MoveCursor(1, 0);
        case Left => MoveCursor(0, -1);
        case Right => MoveCursor(0, 1);
        case Other(c) =>
          if ' ' <= c <= '~' {
            InsertChar(c);
          }
      }
    }

    /** Any sequence of keys. */
    method PressAll(keys: seq<Key>)
      requires Valid()
      modifies this, lines
      ensures Valid() && doc == PressedAll(old(doc), keys)
    {
      for i := 0 to |keys|
        invariant Valid() && doc == PressedAll(old(doc), keys[..i])
      {
        Press(keys[i]);
        assert keys[..i + 1][..i] == keys[..i];
      }
      assert keys[..|keys|] == keys;
    }

    // -------------------------------------------------------------- save_file and load_file

    /** save_file, `written` saying whether the file system took the bytes: never truncated, the text and a
        final newline. */
    method SaveFile(written: bool) returns (buffer: seq<char>)
      requires Valid()
      modifies this`dirty
      ensures Valid() && buffer == Flat(doc.lines) + [NL] && |buffer| < FILE_BUFFER_SIZE
      ensures dirty == (old(dirty) && !written)
    {
      buffer := [];
      assert doc.lines[..0] == [];
      for r := 0 to lineCount
        invariant buffer == Terminated(doc.lines[..r]) && dirty == old(dirty)
      {
        SavedSoFar(doc.lines, r);
        buffer := SaveRow(buffer, lines[r], doc.lines[r]);
        assert doc.lines[..r + 1][..r] == doc.lines[..r];
      }
      assert doc.lines[..lineCount] == doc.lines;
      TerminatedLength(doc.lines);
      TerminatedIsFlat(doc.lines);
      if written {
        dirty := false;
      }
    }

    /** clear_editor_state */
    method Clear()
      requires lines.Length == MAX_LINES && forall r :: 0 <= r < MAX_LINES ==> |lines[r]| == ROW_SIZE
      modifies this, lines
      ensures forall r :: 0 <= r < MAX_LINES ==> |lines[r]| == ROW_SIZE && lines[r][0] == NUL
      ensures lineCount == 1 && row == 0 && col == 0 && !dirty
    {
      for r := 0 to MAX_LINES
        invariant forall k :: 0 <= k < MAX_LINES ==> |lines[k]| == ROW_SIZE
        invariant forall k :: 0 <= k < r ==> lines[k][0] == NUL
      {
        lines[r] := lines[r][0 := NUL];
      }
      lineCount, row, col, dirty := 1, 0, 0, false;
    }

    /** One byte of the file, `raw` being the lines so far. */
    method LoadOne(c: char, at: nat, ghost raw: seq<Line>) returns (at': nat)
      requires RawHold(lines[..], raw) && lineCount == |raw| && at == |raw[lineCount - 1]|
      modifies this`lineCount, lines
      ensures RawHold(lines[..], LoadByte(raw, c)) && lineCount == |LoadByte(raw, c)|
      ensures at' == |LoadByte(raw, c)[lineCount - 1]|
    {
      at' := at;
      var n := lineCount - 1;
      if c == CR {
        return;
      }
      ghost var rows := lines[..];
      if c == NL {
        assert rows[n][at := NUL] == rows[n];
        lines[n] := lines[n][at := NUL];
        assert lines[..] == rows;
        if lineCount < MAX_LINES {
          RawAdd(rows, raw);
          lineCount := lineCount + 1;
          at' := 0;
          lines[lineCount - 1] := lines[lineCount - 1][0 := NUL];
          assert lines[..] == rows[n + 1 := rows[n + 1][0 := NUL]];
        }
      } else if at < MAX_LINE_LEN {
        RawAppend(rows, raw, c);
        at' := at + 1;
        lines[n] := lines[n][at := c];
        lines[n] := lines[n][at' := NUL];
        assert lines[..] == rows[n := rows[n][at := c][at' := NUL]];
      }
    }

    /** load_file on the bytes read. */
    method LoadFile(bytes: seq<char>)
      requires Valid() && |bytes| < FILE_BUFFER_SIZE
      modifies this, lines
      ensures Valid() && doc == Doc(UpToNuls(Loaded(bytes)), 0, 0) && !dirty
    {
      Clear();
      var at := 0;
      ghost var raw: seq<Line> := [[]];
      assert bytes[..0] == [];
      for i := 0 to |bytes|
        invariant RawHold(lines[..], raw) && lineCount == |raw| && at == |raw[lineCount - 1]|
        invariant raw == Loaded(bytes[..i]) && row == 0 && col == 0 && !dirty
      {
        at := LoadOne(bytes[i], at, raw);
        raw := LoadByte(raw, bytes[i]);
        assert bytes[..i + 1][..i] == bytes[..i];
      }
      assert bytes[..|bytes|] == bytes;
      LoadedFits(bytes);
      RawToHold(lines[..], raw);
      doc := Doc(UpToNuls(raw), 0, 0);
    }

    /** Saving and loading again: the same lines, and an empty one behind them if there is room. */
    method SaveAndReload()
      requires Valid()
      modifies this, lines
      ensures Valid()
      ensures doc.lines == if |old(doc.lines)| < MAX_LINES then old(doc.lines) + [[]] else old(doc.lines)
    {
      ReloadGivesLinesBack(doc.lines);
      TerminatedIsFlat(doc.lines);
      var buffer := SaveFile(true);
      LoadFile(buffer);
    }
  }

  lemma SplitRows(rows: seq<Row>, rows': seq<Row>, ls: seq<Line>, row: nat, col: nat)
    requires AllHold(rows, ls) && row < |ls| < MAX_LINES && col <= |ls[row]| && |rows'| == MAX_LINES
    requires forall r :: 0 <= r < MAX_LINES && r != row && r != row + 1 ==>
      rows'[r] == rows[if row + 1 < r <= |ls| then r - 1 else r]
    requires rows'[row] == rows[row][col := NUL] && Holds(rows'[row + 1], ls[row][col..])
    ensures AllHold(rows', SplitLine(ls, row, col))
  {
    var m := SplitLine(ls, row, col);
    assert Holds(rows[row], ls[row]);
    assert rows'[row][..col] == ls[row][..col];
    forall r | 0 <= r < |m| ensures Holds(rows'[r], m[r]) {
      if r < row { assert m[r] == ls[r]; }
      else if r > row + 1 { assert m[r] == ls[r - 1]; }
    }
  }

  lemma JoinRows(rows: seq<Row>, rows': seq<Row>, ls: seq<Line>, row: nat)
    requires AllHold(rows, ls) && 0 < row < |ls| && |rows'| == MAX_LINES
    requires Holds(rows'[row - 1], ls[row - 1] + Fitting(ls[row - 1], ls[row]))
    requires forall r :: 0 <= r < MAX_LINES && r != row - 1 ==>
      rows'[r] == rows[if row <= r < |ls| - 1 then r + 1 else r]
    ensures AllHold(rows', JoinLine(ls, row))
  {
    var m := JoinLine(ls, row);
    forall r | 0 <= r < |m| ensures Holds(rows'[r], m[r]) {
      if r < row - 1 { assert m[r] == ls[r]; }
      else if r >= row { assert m[r] == ls[r + 1]; }
    }
  }

  /** The inner loop of save_file: one line and its newline; the bound on the position is never met. */
  method SaveRow(buffer: seq<char>, row: Row, ghost l: Line) returns (r: seq<char>)
    requires Holds(row, l) && |buffer| + |l| + 1 < FILE_BUFFER_SIZE
    ensures r == buffer + l + [NL]
  {
    assert forall k :: 0 <= k < |l| ==> row[k] == l[k];
    r := buffer;
    var col := 0;
    while row[col] != NUL && |r| < FILE_BUFFER_SIZE - 1
      invariant col <= |l| && r == buffer + l[..col]
      decreases |l| - col
    {
      r := r + [row[col]];
      col := col + 1;
    }
    assert l[..col] == l;
    if |r| < FILE_BUFFER_SIZE - 1 {
      r := r + [NL];
    }
  }

  lemma SavedSoFar(ls: seq<Line>, r: nat)
    requires Clean(ls) && r < |ls|
    ensures |Terminated(ls[..r])| + |ls[r]| + 1 < FILE_BUFFER_SIZE
  {
    TerminatedLength(ls[..r]);
  }

  /** The rows hold these lines, which may contain NULs. */
  ghost predicate RawHold(rows: seq<Row>, raw: seq<Line>) {
    && |rows| == MAX_LINES && 1 <= |raw| <= MAX_LINES
    && (forall r :: 0 <= r < MAX_LINES ==> |rows[r]| == ROW_SIZE)
    && forall r :: 0 <= r < |raw| ==>
         |raw[r]| <= MAX_LINE_LEN && rows[r][..|raw[r]|] == raw[r] && rows[r][|raw[r]|] == NUL
  }

  lemma RawAdd(rows: seq<Row>, raw: seq<Line>)
    requires RawHold(rows, raw) && |raw| < MAX_LINES
    ensures RawHold(rows[|raw| := rows[|raw|][0 := NUL]], raw + [[]])
  {}

  lemma RawAppend(rows: seq<Row>, raw: seq<Line>, c: char)
    requires RawHold(rows, raw) && |raw[|raw| - 1]| < MAX_LINE_LEN
    ensures var n := |raw| - 1; var at := |raw[n]|;
      RawHold(rows[n := rows[n][at := c][at + 1 := NUL]], raw[n := raw[n] + [c]])
  {
    var n := |raw| - 1;
    var at := |raw[n]|;
    var row' := rows[n][at := c][at + 1 := NUL];
    assert row'[..at + 1] == raw[n] + [c];
  }

  lemma RawToHold(rows: seq<Row>, raw: seq<Line>)
    requires RawHold(rows, raw) && forall r :: 0 <= r < |raw| ==> RawLine(raw[r])
    ensures AllHold(rows, UpToNuls(raw)) && Clean(UpToNuls(raw))
  {
    var ls := UpToNuls(raw);
    forall r | 0 <= r < |ls| ensures Holds(rows[r], ls[r]) && CleanLine(ls[r]) {
      var l := UpToNul(raw[r]);
      assert l == raw[r][..|l|];
      assert rows[r][..|l|] == l;
      if |l| < |raw[r]| { assert rows[r][..|raw[r]|][|l|] == NUL; }
      assert forall c :: c in l ==> c in raw[r];
    }
  }
}
