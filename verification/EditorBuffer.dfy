/** The editor as it runs: rows of bytes shifted in place, proved to compute the functions of module Editor. */
module EditorBuffer {
  import opened Bits
  import opened Editor

  lemma Inserted(line: seq<Byte>, x: nat, ch: Byte, row: seq<Byte>)
    requires x <= |line| && |row| == |line| + 1 && row[x] == ch
    requires forall k :: 0 <= k < x ==> row[k] == line[k]
    requires forall k :: x < k < |row| ==> row[k] == line[k - 1]
    ensures row == line[..x] + [ch] + line[x..]
  {
  }

  class Buffer {
    const bytes: array2<Byte>
    const lens: array<nat>
    var count: nat
    var y: nat
    var x: nat

    ghost predicate Sized()
    {
      bytes.Length0 == MAX_LINES && bytes.Length1 == MAX_LINE_LEN && lens.Length == MAX_LINES
    }

    /** The arrays have their sizes and every line its place in a row. */
    ghost predicate Fits()
      reads lens
    {
      Sized() && forall i :: 0 <= i < MAX_LINES ==> lens[i] <= MAX_LINE_LEN
    }

    ghost predicate Shape()
      reads this`count, lens
    {
      Fits() && count <= MAX_LINES
    }

    /** The first bytes of a row. */
    function Row(i: nat, n: nat): (r: seq<Byte>)
      requires i < bytes.Length0 && n <= bytes.Length1
      reads bytes
      ensures |r| == n
      ensures forall k :: 0 <= k < n ==> r[k] == bytes[i, k]
    {
      seq(n, k requires 0 <= k < n reads bytes => bytes[i, k])
    }

    ghost function FirstLines(n: nat): (r: seq<seq<Byte>>)
      requires Fits() && n <= MAX_LINES
      reads bytes, lens
      ensures |r| == n
      ensures forall i :: 0 <= i < n ==> r[i] == Row(i, lens[i])
    {
      seq(n, i requires 0 <= i < n && Fits() reads bytes, lens => Row(i, lens[i]))
    }

    ghost function Lines(): (r: seq<seq<Byte>>)
      requires Shape()
      reads this`count, bytes, lens
      ensures |r| == count
      ensures forall i :: 0 <= i < count ==> r[i] == Row(i, lens[i])
    {
      FirstLines(count)
    }

    ghost function View(): Doc
      requires Shape()
      reads this, bytes, lens
    {
      Doc(Lines(), y, x)
    }

    ghost predicate Valid()
      reads this, bytes, lens
    {
      Shape() && Wf(View())
    }

    constructor ()
      ensures Shape() && View() == Doc([[]], 0, 0)
      ensures Valid()
      ensures fresh(bytes) && fresh(lens)
      ensures forall i :: 0 <= i < MAX_LINES ==> lens[i] == 0
    {
      bytes := new Byte[MAX_LINES, MAX_LINE_LEN]((_, _) => 0);
      lens := new nat[MAX_LINES](_ => 0);
      count, y, x := 1, 0, 0;
      new;
      assert Row(0, 0) == [];
    }

    /** Every row but one holds what it held. */
    twostate predicate OtherRows(row: nat)
      requires Sized()
      reads bytes
    {
      forall i, k :: 0 <= i < MAX_LINES && i != row && 0 <= k < MAX_LINE_LEN ==> bytes[i, k] == old(bytes[i, k])
    }

    /** Changing one row and its length changes one line. */
    twostate lemma OneLine(row: nat)
      requires old(Shape()) && Shape() && count == old(count) && row < count && OtherRows(row)
      requires forall i :: 0 <= i < count && i != row ==> lens[i] == old(lens[i])
      ensures Lines() == old(Lines())[row := Row(row, lens[row])]
    {
      forall i | 0 <= i < count && i != row ensures Lines()[i] == old(Lines()[i]) {
        assert Row(i, lens[i]) == old(Row(i, lens[i]));
      }
    }

    /** The bytes of a row from a position on, moved one to the right. */
    method ShiftRight(row: nat, from: nat, len: nat)
      requires Sized() && row < MAX_LINES && from <= len < MAX_LINE_LEN
      modifies bytes
      ensures OtherRows(row)
      ensures forall k :: 0 <= k < from ==> bytes[row, k] == old(bytes[row, k])
      ensures forall k :: from < k <= len ==> bytes[row, k] == old(bytes[row, k - 1])
    {
      var i := len;
      while i > from
        invariant from <= i <= len
        invariant OtherRows(row)
        invariant forall k :: 0 <= k <= i && k < len ==> bytes[row, k] == old(bytes[row, k])
        invariant forall k :: i < k <= len ==> bytes[row, k] == old(bytes[row, k - 1])
      {
        i := i - 1;
        bytes[row, i + 1] := bytes[row, i];
      }
    }

    /** The bytes of a row from a position on, moved one to the left. */
    method ShiftLeft(row: nat, from: nat, len: nat)
      requires Sized() && row < MAX_LINES && 0 < from <= len <= MAX_LINE_LEN
      modifies bytes
      ensures OtherRows(row)
      ensures forall k :: 0 <= k < from - 1 ==> bytes[row, k] == old(bytes[row, k])
      ensures forall k :: from - 1 <= k < len - 1 ==> bytes[row, k] == old(bytes[row, k + 1])
    {
      for i := from to len
        invariant OtherRows(row)
        invariant forall k :: 0 <= k < from - 1 ==> bytes[row, k] == old(bytes[row, k])
        invariant forall k :: from - 1 <= k < i - 1 ==> bytes[row, k] == old(bytes[row, k + 1])
        invariant forall k :: i <= k < len ==> bytes[row, k] == old(bytes[row, k])
      {
        bytes[row, i - 1] := bytes[row, i];
      }
    }

    /** Bytes of one row copied into another. */
    method CopyBytes(src: nat, from: nat, dst: nat, at: nat, n: nat)
      requires Sized() && src < MAX_LINES && dst < MAX_LINES && src != dst
      requires from + n <= MAX_LINE_LEN && at + n <= MAX_LINE_LEN
      modifies bytes
      ensures OtherRows(dst)
      ensures forall k :: 0 <= k < at ==> bytes[dst, k] == old(bytes[dst, k])
      ensures forall k :: at <= k < at + n ==> bytes[dst, k] == old(bytes[src, from + (k - at)])
    {
      for i := 0 to n
        invariant OtherRows(dst)
        invariant forall k :: 0 <= k < at ==> bytes[dst, k] == old(bytes[dst, k])
        invariant forall k :: at <= k < at + i ==> bytes[dst, k] == old(bytes[src, from + (k - at)])
      {
        bytes[dst, at + i] := bytes[src, from + i];
      }
    }

    /** A whole row and its length. */
    method CopyRow(src: nat, dst: nat)
      requires Sized() && src < MAX_LINES && dst < MAX_LINES
      modifies bytes, lens
      ensures OtherRows(dst) && lens[..] == old(lens[..])[dst := old(lens[src])]
      ensures forall k :: 0 <= k < MAX_LINE_LEN ==> bytes[dst, k] == old(bytes[src, k])
    {
      forall k | 0 <= k < MAX_LINE_LEN {
        bytes[dst, k] := bytes[src, k];
      }
      lens[dst] := lens[src];
    }

    /** Rows of one range hold what their neighbours held; all others are as they were. */
    twostate predicate Moved(lo: nat, hi: nat, shift: int)
      requires Sized() && hi <= MAX_LINES && 0 <= lo + shift && hi + shift <= MAX_LINES
      reads bytes, lens
    {
      && (forall i :: 0 <= i < MAX_LINES && !(lo <= i < hi) ==> lens[i] == old(lens[i]))
      && (forall i :: lo <= i < hi ==> lens[i] == old(lens[i + shift]))
      && (forall i, k :: 0 <= i < MAX_LINES && !(lo <= i < hi) && 0 <= k < MAX_LINE_LEN ==> bytes[i, k] == old(bytes[i, k]))
      && (forall i, k :: lo <= i < hi && 0 <= k < MAX_LINE_LEN ==> bytes[i, k] == old(bytes[i + shift, k]))
    }

    /** Rows after a position, moved one up: the row there is lost. */
    method RowsUp(from: nat)
      requires Sized() && from < count <= MAX_LINES
      modifies bytes, lens
      ensures Moved(from, count - 1, 1)
    {
      for i := from to count - 1
        invariant Moved(from, i, 1)
      {
        CopyRow(i + 1, i);
      }
    }

    /** Rows after a position, moved one down. */
    method RowsDown(from: nat)
      requires Sized() && from < count < MAX_LINES
      modifies bytes, lens
      ensures Moved(from + 2, count + 1, -1)
    {
      var i := count + 1;
      while i > from + 2
        invariant from + 2 <= i <= count + 1
        invariant Moved(i, count + 1, -1)
      {
        i := i - 1;
        CopyRow(i - 1, i);
      }
    }

    /** A byte put into a row, the ones behind it moved one to the right. */
    method PutByte(row: nat, at: nat, len: nat, ch: Byte)
      requires Sized() && row < MAX_LINES && at <= len < MAX_LINE_LEN
      modifies bytes
      ensures OtherRows(row)
      ensures forall k :: 0 <= k < at ==> bytes[row, k] == old(bytes[row, k])
      ensures bytes[row, at] == ch
      ensures forall k :: at < k <= len ==> bytes[row, k] == old(bytes[row, k - 1])
    {
      ShiftRight(row, at, len);
      bytes[row, at] := ch;
    }

    method InsertInRow(ch: Byte)
      requires Shape() && y < count && x <= lens[y] < MAX_LINE_LEN - 1
      modifies bytes, lens
      ensures Shape()
      ensures var line := old(Lines())[y]; Lines() == old(Lines())[y := line[..x] + [ch] + line[x..]]
    {
      var len := lens[y];
      ghost var line := Row(y, len);
      PutByte(y, x, len, ch);
      Inserted(line, x, ch, Row(y, len + 1));
      lens[y] := len + 1;
      OneLine(y);
    }

    method DeleteInRow()
      requires Shape() && y < count && 0 < x <= lens[y]
      modifies bytes, lens
      ensures Shape()
      ensures var line := old(Lines())[y]; Lines() == old(Lines())[y := line[..x - 1] + line[x..]]
    {
      var len := lens[y];
      ghost var line := Row(y, len);
      ShiftLeft(y, x, len);
      lens[y] := len - 1;
      OneLine(y);
      assert Row(y, len - 1) == line[..x - 1] + line[x..];
    }

    method InsertAt(ch: Typed)
      requires Valid()
      modifies this`x, bytes, lens
      ensures Shape() && View() == InsertChar(old(View()), ch)
      ensures Valid()
    {
      ghost var d := View();
      WfKept(d, Char(ch));
      assert lens[y] == |d.lines[y]|;
      if lens[y] < MAX_LINE_LEN - 1 {
        InsertInRow(ch);
        x := x + 1;
      }
    }

    method DeleteBefore()
      requires Valid() && x > 0
      modifies this`x, bytes, lens
      ensures Shape() && View() == Backspace(old(View()))
      ensures Valid()
    {
      ghost var d := View();
      WfKept(d, BackspaceKey);
      assert lens[y] == |d.lines[y]|;
      DeleteInRow();
      x := x - 1;
    }

    /** The cursor's line appended to the one above it. */
    method AppendLine(prevLen: nat, currLen: nat)
      requires Shape() && 0 < y < count && prevLen == lens[y - 1] && currLen == lens[y] && prevLen + currLen < MAX_LINE_LEN
      modifies bytes, lens
      ensures Shape()
      ensures Lines() == old(Lines())[y - 1 := old(Lines())[y - 1] + old(Lines())[y]]
    {
      ghost var prev, line := Row(y - 1, prevLen), Row(y, currLen);
      CopyBytes(y, 0, y - 1, prevLen, currLen);
      lens[y - 1] := prevLen + currLen;
      OneLine(y - 1);
      assert Row(y - 1, prevLen + currLen) == prev + line;
    }

    /** The rows without one of them. */
    method CloseGap(row: nat)
      requires Shape() && row < count
      modifies this`count, bytes, lens
      ensures Shape() && Lines() == old(Lines())[..row] + old(Lines())[row + 1..]
    {
      RowsUp(row);
      count := count - 1;
      forall i | 0 <= i < count ensures Lines()[i] == (old(Lines())[..row] + old(Lines())[row + 1..])[i] {
        if i < row {
          assert Row(i, lens[i]) == old(Row(i, lens[i]));
        } else {
          assert Row(i, lens[i]) == old(Row(i + 1, lens[i + 1]));
        }
      }
    }

    /** The cursor's line appended to the one above it and its row removed. */
    method MergeRows(prevLen: nat, currLen: nat, ghost d: Doc)
      requires Shape() && Lines() == d.lines && y == d.y && Wf(d) && d.x == 0 && d.y > 0
      requires prevLen == lens[y - 1] && currLen == lens[y] && prevLen + currLen < MAX_LINE_LEN
      modifies this`count, bytes, lens
      ensures Shape() && Lines() == Backspace(d).lines
    {
      AppendLine(prevLen, currLen);
      ghost var joined := Lines();
      CloseGap(y);
      JoinSteps(d, joined, Lines());
    }

    method JoinLines()
      requires Valid() && x == 0 && y > 0
      modifies this, bytes, lens
      ensures Shape() && View() == Backspace(old(View()))
      ensures Valid()
    {
      ghost var d := View();
      WfKept(d, BackspaceKey);
      var prevLen, currLen := lens[y - 1], lens[y];
      assert prevLen == |d.lines[y - 1]| && currLen == |d.lines[y]|;
      if prevLen + currLen < MAX_LINE_LEN {
        MergeRows(prevLen, currLen, d);
        x := prevLen;
        y := y - 1;
      }
    }

    method HandleBackspace()
      requires Valid()
      modifies this, bytes, lens
      ensures Shape() && View() == Backspace(old(View()))
      ensures Valid()
    {
      if x > 0 {
        DeleteBefore();
      } else if y > 0 {
        JoinLines();
      }
    }

    /** The rows with room for one more after a given one. */
    method OpenRow(row: nat)
      requires Shape() && row < count < MAX_LINES
      modifies this`count, bytes, lens
      ensures Shape() && count == old(count) + 1
      ensures forall i :: 0 <= i <= row ==> Lines()[i] == old(Lines())[i]
      ensures forall i :: row + 2 <= i < count ==> Lines()[i] == old(Lines())[i - 1]
    {
      RowsDown(row);
      count := count + 1;
      forall i | 0 <= i <= row ensures Lines()[i] == old(Lines())[i] {
        assert Row(i, lens[i]) == old(Row(i, lens[i]));
      }
      forall i | row + 2 <= i < count ensures Lines()[i] == old(Lines())[i - 1] {
        assert Row(i, lens[i]) == old(Row(i - 1, lens[i - 1]));
      }
    }

    method HandleEnter()
      requires Valid()
      modifies this, bytes, lens
      ensures Shape() && View() == Enter(old(View()))
      ensures Valid()
    {
      WfKept(View(), EnterKey);
      if count < MAX_LINES - 1 {
        var len, splitAt := lens[y], x;
        ghost var line := Lines()[y];
        OpenRow(y);
        ghost var widened := Lines();
        assert lens[y] == len by {
          assert |widened[y]| == |line|;
        }
        SplitRow(len - splitAt, splitAt);
        SplitSteps(old(Lines()), widened, y, line[..splitAt], line[splitAt..]);
        y := y + 1;
        x := 0;
      }
    }

    /** The end of the cursor's row moved to the next one. */
    method SplitRow(remain: nat, splitAt: nat)
      requires Shape() && y + 1 < count && lens[y] == splitAt + remain
      modifies bytes, lens
      ensures Shape()
      ensures var line := old(Lines())[y]; Lines() == old(Lines())[y := line[..splitAt]][y + 1 := line[splitAt..]]
    {
      ghost var line := Lines()[y];
      CopyBytes(y, splitAt, y + 1, 0, remain);
      lens[y + 1] := remain;
      OneLine(y + 1);
      assert Row(y + 1, remain) == line[splitAt..];
      label Copied:
      lens[y] := splitAt;
      OneLine@Copied(y);
      assert Row(y, splitAt) == line[..splitAt];
    }

    method MoveLeft()
      requires Valid()
      modifies this`x, this`y
      ensures Shape() && View() == Left(old(View()))
      ensures Valid()
    {
      if x > 0 {
        x := x - 1;
      } else if y > 0 {
        y := y - 1;
        x := lens[y];
      }
    }

    method MoveRight()
      requires Valid()
      modifies this`x, this`y
      ensures Shape() && View() == Right(old(View()))
      ensures Valid()
    {
      if x < lens[y] {
        x := x + 1;
      } else if y < count - 1 {
        y := y + 1;
        x := 0;
      }
    }

    method MoveUp()
      requires Valid()
      modifies this`x, this`y
      ensures Shape() && View() == Up(old(View()))
      ensures Valid()
    {
      if y > 0 {
        y := y - 1;
        x := Min(x, lens[y]);
      }
    }

    method MoveDown()
      requires Valid()
      modifies this`x, this`y
      ensures Shape() && View() == Down(old(View()))
      ensures Valid()
    {
      if y < count - 1 {
        y := y + 1;
        x := Min(x, lens[y]);
      }
    }

    /** `save`: what is written to the file. */
    method Save() returns (file: seq<Byte>)
      requires Valid()
      ensures file == Text(View().lines)
    {
      file := [];
      for i := 0 to count
        invariant file == Text(Lines()[..i])
      {
        var written := Row(i, lens[i]);
        TextTwo(Lines()[..i], written, [], []);
        assert Lines()[..i + 1] == Lines()[..i] + [written];
        file := file + written + [NEWLINE];
      }
      assert Lines()[..count] == Lines();
    }

    /** A byte of the line being read; one that does not fit in the row is dropped. */
    method StoreByte(linePos: nat, b: Byte) returns (pos: nat)
      requires Shape() && count < MAX_LINES && linePos <= MAX_LINE_LEN
      modifies bytes
      ensures Shape() && Lines() == old(Lines())
      ensures pos == if linePos < MAX_LINE_LEN then linePos + 1 else linePos
      ensures Row(count, pos) == Clip(old(Row(count, linePos)) + [b])
    {
      if linePos < MAX_LINE_LEN {
        bytes[count, linePos] := b;
        assert forall i :: 0 <= i < count ==> Row(i, lens[i]) == old(Row(i, lens[i]));
        return linePos + 1;
      }
      return linePos;
    }

    method EndLine(linePos: nat)
      requires Shape() && count < MAX_LINES && linePos <= MAX_LINE_LEN
      modifies this`count, lens
      ensures Shape() && Lines() == old(Lines()) + [old(Row(count, linePos))]
    {
      lens[count] := linePos;
      count := count + 1;
    }

    /** The lines of a file up to the last newline, or as many as there are rows. */
    method ReadLines(file: seq<Byte>) returns (linePos: nat, ghost i: nat, ghost done: seq<seq<Byte>>, ghost part: seq<Byte>)
      requires Shape() && count == 0 && lens[0] == 0
      modifies this`count, bytes, lens
      ensures Shape() && linePos <= MAX_LINE_LEN
      ensures Reading(file, i, Lines(), done, part)
      ensures count < MAX_LINES ==> i == |file| && Row(count, linePos) == Clip(part)
      ensures count == MAX_LINES ==> linePos == 0
      ensures count == 0 ==> lens[0] == 0
    {
      linePos, i, done, part := 0, 0, [], [];
      for j := 0 to |file|
        invariant Shape() && linePos <= MAX_LINE_LEN && count < MAX_LINES
        invariant i == j && Reading(file, i, Lines(), done, part)
        invariant Row(count, linePos) == Clip(part)
        invariant count == 0 ==> lens[0] == 0
      {
        if file[j] == NEWLINE {
          ReadNewline(file, i, Lines(), done, part);
          EndLine(linePos);
          i, done, part := i + 1, done + [part], [];
          linePos := 0;
          if count >= MAX_LINES {
            return;
          }
        } else {
          ReadByte(file, i, Lines(), done, part);
          linePos := StoreByte(linePos, file[j]);
          i, part := i + 1, part + [file[j]];
        }
      }
    }

    /** `load_file`: the bytes of the file come one by one. */
    method LoadFile(file: seq<Byte>)
      requires Valid() && View() == Doc([[]], 0, 0)
      modifies this`count, bytes, lens
      ensures Shape() && View() == Doc(Load(file), 0, 0)
      ensures Valid()
    {
      LoadOk(file);
      assert lens[0] == |Lines()[0]|;
      count := 0;
      var linePos, i, done, part := ReadLines(file);
      if count < MAX_LINES {
        ReadEnd(file, Lines(), done, part);
        LastLine(linePos);
      } else {
        ReadFull(file, i, Lines(), done, part);
      }
    }

    /** A last line without a newline, and at least one line. */
    method LastLine(linePos: nat)
      requires Shape() && count < MAX_LINES && linePos <= MAX_LINE_LEN && (count == 0 ==> lens[0] == 0)
      modifies this`count, lens
      ensures Shape()
      ensures var part := old(Row(count, linePos)); var all := if part == [] then old(Lines()) else old(Lines()) + [part];
              Lines() == if all == [] then [[]] else all
    {
      if linePos > 0 {
        EndLine(linePos);
      }
      if count == 0 {
        count := 1;
        assert Lines() == [[]];
      }
    }
  }
}
