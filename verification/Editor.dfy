/** The text editor: lines under a cursor, and the flat text they stand for. */
module Editor {
  import opened Bits

  const MAX_LINES: nat := 1000
  const MAX_LINE_LEN: nat := 256
  const NEWLINE: Byte := 10

  datatype Doc = Doc(lines: seq<seq<Byte>>, y: nat, x: nat)

  predicate LinesOk(lines: seq<seq<Byte>>) {
    1 <= |lines| <= MAX_LINES && forall i :: 0 <= i < |lines| ==> |lines[i]| <= MAX_LINE_LEN
  }

  predicate Wf(d: Doc) {
    LinesOk(d.lines) && d.y < |d.lines| && d.x <= |d.lines[d.y]|
  }

  /** `insert_char`. */
  function InsertChar(d: Doc, ch: Byte): Doc
    requires Wf(d)
  {
    var line := d.lines[d.y];
    if |line| < MAX_LINE_LEN - 1
    then d.(lines := d.lines[d.y := line[..d.x] + [ch] + line[d.x..]], x := d.x + 1)
    else d
  }

  /** `handle_backspace`. */
  function Backspace(d: Doc): Doc
    requires Wf(d)
  {
    var line := d.lines[d.y];
    if d.x > 0 then d.(lines := d.lines[d.y := line[..d.x - 1] + line[d.x..]], x := d.x - 1)
    else if d.y > 0 && |d.lines[d.y - 1]| + |line| < MAX_LINE_LEN then
      var prev := d.lines[d.y - 1];
      Doc(d.lines[..d.y - 1] + [prev + line] + d.lines[d.y + 1..], d.y - 1, |prev|)
    else d
  }

  /** `handle_enter`. */
  function Enter(d: Doc): Doc
    requires Wf(d)
  {
    var line := d.lines[d.y];
    if |d.lines| < MAX_LINES - 1
    then Doc(d.lines[..d.y] + [line[..d.x], line[d.x..]] + d.lines[d.y + 1..], d.y + 1, 0)
    else d
  }

  /** `move_left`. */
  function Left(d: Doc): Doc
    requires Wf(d)
  {
    if d.x > 0 then d.(x := d.x - 1)
    else if d.y > 0 then d.(y := d.y - 1, x := |d.lines[d.y - 1]|)
    else d
  }

  /** `move_right`. */
  function Right(d: Doc): Doc
    requires Wf(d)
  {
    if d.x < |d.lines[d.y]| then d.(x := d.x + 1)
    else if d.y < |d.lines| - 1 then d.(y := d.y + 1, x := 0)
    else d
  }

  function Min(a: nat, b: nat): nat {
    if a < b then a else b
  }

  /** `move_up`. */
  function Up(d: Doc): Doc
    requires Wf(d)
  {
    if d.y > 0 then d.(y := d.y - 1, x := Min(d.x, |d.lines[d.y - 1]|)) else d
  }

  /** `move_down`. */
  function Down(d: Doc): Doc
    requires Wf(d)
  {
    if d.y < |d.lines| - 1 then d.(y := d.y + 1, x := Min(d.x, |d.lines[d.y + 1]|)) else d
  }

  /** A byte that is typed: newlines arrive as enter. */
  type Typed = b: Byte | b != NEWLINE

  datatype Key = Char(ch: Typed) | EnterKey | BackspaceKey | LeftKey | RightKey | UpKey | DownKey

  function Press(d: Doc, k: Key): Doc
    requires Wf(d)
  {
    match k
    case Char(ch) => InsertChar(d, ch)
    case EnterKey => Enter(d)
    case BackspaceKey => Backspace(d)
    case LeftKey => Left(d)
    case RightKey => Right(d)
    case UpKey => Up(d)
    case DownKey => Down(d)
  }

  /** The fixed-size buffer has no room for what the key asks. */
  predicate Refused(d: Doc, k: Key)
    requires Wf(d)
  {
    match k
    case Char(_) => |d.lines[d.y]| >= MAX_LINE_LEN - 1
    case EnterKey => |d.lines| >= MAX_LINES - 1
    case BackspaceKey => d.x == 0 && d.y > 0 && |d.lines[d.y - 1]| + |d.lines[d.y]| >= MAX_LINE_LEN
    case _ => false
  }

  // ---- The flat text ------------------------------------------------------------------------------

  /** What `save` writes: every line, each followed by a newline. */
  function Text(lines: seq<seq<Byte>>): seq<Byte> {
    if lines == [] then [] else lines[0] + [NEWLINE] + Text(lines[1..])
  }

  /** One text and an offset into it. */
  datatype Flat = Flat(text: seq<Byte>, at: nat)

  function Flatten(d: Doc): Flat
    requires Wf(d)
  {
    Flat(Text(d.lines), |Text(d.lines[..d.y])| + d.x)
  }

  /** Where the line of an offset starts: at the text's start or after a newline. */
  function LineStart(text: seq<Byte>, at: nat): (r: nat)
    requires at <= |text|
    ensures r <= at
  {
    if at == 0 || text[at - 1] == NEWLINE then at else LineStart(text, at - 1)
  }

  /** Where it ends: at the next newline or the text's end. */
  function LineEnd(text: seq<Byte>, at: nat): (r: nat)
    requires at <= |text|
    ensures at <= r <= |text|
    decreases |text| - at
  {
    if at == |text| || text[at] == NEWLINE then at else LineEnd(text, at + 1)
  }

  function FlatPress(f: Flat, k: Key): Flat
    requires f.at < |f.text|
  {
    match k
    case Char(ch) => Flat(f.text[..f.at] + [ch] + f.text[f.at..], f.at + 1)
    case EnterKey => Flat(f.text[..f.at] + [NEWLINE] + f.text[f.at..], f.at + 1)
    case BackspaceKey => if f.at == 0 then f else Flat(f.text[..f.at - 1] + f.text[f.at..], f.at - 1)
    case LeftKey => if f.at == 0 then f else f.(at := f.at - 1)
    case RightKey => if f.at + 1 == |f.text| then f else f.(at := f.at + 1)
    case UpKey =>
      var start := LineStart(f.text, f.at);
      if start == 0 then f
      else
        var above := LineStart(f.text, start - 1);
        f.(at := above + Min(f.at - start, start - 1 - above))
    case DownKey =>
      var start, end := LineStart(f.text, f.at), LineEnd(f.text, f.at);
      if end + 1 >= |f.text| then f else f.(at := end + 1 + Min(f.at - start, LineEnd(f.text, end + 1) - (end + 1)))
  }

  lemma {:induction false} TextConcat(a: seq<seq<Byte>>, b: seq<seq<Byte>>)
    ensures Text(a + b) == Text(a) + Text(b)
  {
    if a == [] {
      assert a + b == b;
    } else {
      TextConcat(a[1..], b);
      assert (a + b)[1..] == a[1..] + b;
    }
  }

  lemma TextOne(line: seq<Byte>)
    ensures Text([line]) == line + [NEWLINE]
  {
    assert Text([line][1..]) == [];
  }

  /** What follows a line in the text. */
  function Rest(b: seq<seq<Byte>>): seq<Byte> {
    [NEWLINE] + Text(b)
  }

  /** The text around a line. */
  lemma TextAround(a: seq<seq<Byte>>, line: seq<Byte>, b: seq<seq<Byte>>)
    ensures Text(a + [line] + b) == Text(a) + line + Rest(b)
  {
    TextConcat(a + [line], b);
    TextConcat(a, [line]);
    TextOne(line);
  }

  /** The text around two lines. */
  lemma TextTwo(a: seq<seq<Byte>>, first: seq<Byte>, second: seq<Byte>, b: seq<seq<Byte>>)
    ensures Text(a + [first, second] + b) == Text(a) + (first + [NEWLINE] + second) + Rest(b)
    ensures Text(a + [first]) == Text(a) + first + [NEWLINE]
  {
    assert a + [first, second] + b == (a + [first]) + [second] + b;
    TextAround(a + [first], second, b);
    TextConcat(a, [first]);
    TextOne(first);
  }

  /** Inserting a byte in the middle part of three. */
  lemma MidInsert(a: seq<Byte>, line: seq<Byte>, b: seq<Byte>, x: nat, c: Byte)
    requires x <= |line|
    ensures var t, at := a + line + b, |a| + x; t[..at] + [c] + t[at..] == a + (line[..x] + [c] + line[x..]) + b
  {
  }

  lemma MidDelete(a: seq<Byte>, line: seq<Byte>, b: seq<Byte>, x: nat)
    requires 0 < x <= |line|
    ensures var t, at := a + line + b, |a| + x; t[..at - 1] + t[at..] == a + (line[..x - 1] + line[x..]) + b
  {
  }

  /** The text of a document around the cursor's line. */
  lemma Around(d: Doc)
    requires Wf(d)
    ensures d.lines == d.lines[..d.y] + [d.lines[d.y]] + d.lines[d.y + 1..]
    ensures Text(d.lines) == Text(d.lines[..d.y]) + d.lines[d.y] + Rest(d.lines[d.y + 1..])
    ensures Flatten(d).at < |Flatten(d).text|
  {
    assert d.lines == d.lines[..d.y] + [d.lines[d.y]] + d.lines[d.y + 1..];
    TextAround(d.lines[..d.y], d.lines[d.y], d.lines[d.y + 1..]);
  }

  /** Another line in the place of the cursor's. */
  lemma Replaced(d: Doc, line: seq<Byte>)
    requires Wf(d)
    ensures Text(d.lines[d.y := line]) == Text(d.lines[..d.y]) + line + Rest(d.lines[d.y + 1..])
    ensures d.lines[d.y := line][..d.y] == d.lines[..d.y]
  {
    assert d.lines[d.y := line] == d.lines[..d.y] + [line] + d.lines[d.y + 1..];
    TextAround(d.lines[..d.y], line, d.lines[d.y + 1..]);
  }

  lemma WfKept(d: Doc, k: Key)
    requires Wf(d)
    ensures Wf(Press(d, k))
  {
  }

  lemma InsertRefines(d: Doc, ch: Typed)
    requires Wf(d) && !Refused(d, Char(ch))
    ensures Flatten(d).at < |Flatten(d).text|
    ensures Flatten(InsertChar(d, ch)) == FlatPress(Flatten(d), Char(ch))
  {
    Around(d);
    var line := d.lines[d.y];
    Replaced(d, line[..d.x] + [ch] + line[d.x..]);
    MidInsert(Text(d.lines[..d.y]), line, Rest(d.lines[d.y + 1..]), d.x, ch);
  }

  lemma EnterRefines(d: Doc)
    requires Wf(d) && !Refused(d, EnterKey)
    ensures Flatten(d).at < |Flatten(d).text|
    ensures Flatten(Enter(d)) == FlatPress(Flatten(d), EnterKey)
  {
    Around(d);
    var line := d.lines[d.y];
    TextTwo(d.lines[..d.y], line[..d.x], line[d.x..], d.lines[d.y + 1..]);
    assert Enter(d).lines[..d.y + 1] == d.lines[..d.y] + [line[..d.x]];
    MidInsert(Text(d.lines[..d.y]), line, Rest(d.lines[d.y + 1..]), d.x, NEWLINE);
  }

  lemma BackspaceRefines(d: Doc)
    requires Wf(d) && !Refused(d, BackspaceKey)
    ensures Flatten(d).at < |Flatten(d).text|
    ensures Flatten(Backspace(d)) == FlatPress(Flatten(d), BackspaceKey)
  {
    Around(d);
    if d.x > 0 {
      var line := d.lines[d.y];
      Replaced(d, line[..d.x - 1] + line[d.x..]);
      MidDelete(Text(d.lines[..d.y]), line, Rest(d.lines[d.y + 1..]), d.x);
    } else if d.y > 0 {
      JoinRefines(d);
    }
  }

  lemma JoinRefines(d: Doc)
    requires Wf(d) && d.x == 0 && d.y > 0 && !Refused(d, BackspaceKey)
    ensures Flatten(d).at < |Flatten(d).text|
    ensures Flatten(Backspace(d)) == FlatPress(Flatten(d), BackspaceKey)
  {
    Around(d);
    var a, prev, line, b := d.lines[..d.y - 1], d.lines[d.y - 1], d.lines[d.y], d.lines[d.y + 1..];
    assert d.lines[..d.y] == a + [prev];
    assert d.lines == a + [prev, line] + b;
    TextTwo(a, prev, line, b);
    TextAround(a, prev + line, b);
    assert Backspace(d).lines[..d.y - 1] == a;
    var both := prev + [NEWLINE] + line;
    MidDelete(Text(a), both, Rest(b), |prev| + 1);
    assert both[..|prev|] == prev && both[|prev| + 1..] == line;
  }

  lemma LeftRefines(d: Doc)
    requires Wf(d)
    ensures Flatten(d).at < |Flatten(d).text|
    ensures Flatten(Left(d)) == FlatPress(Flatten(d), LeftKey)
  {
    Around(d);
    if d.x == 0 && d.y > 0 {
      assert d.lines[..d.y] == d.lines[..d.y - 1] + [d.lines[d.y - 1]];
      TextTwo(d.lines[..d.y - 1], d.lines[d.y - 1], [], []);
    }
  }

  lemma RightRefines(d: Doc)
    requires Wf(d)
    ensures Flatten(d).at < |Flatten(d).text|
    ensures Flatten(Right(d)) == FlatPress(Flatten(d), RightKey)
  {
    Around(d);
    assert d.lines[..d.y + 1] == d.lines[..d.y] + [d.lines[d.y]];
    TextTwo(d.lines[..d.y], d.lines[d.y], [], []);
    if d.y < |d.lines| - 1 {
      Around(Doc(d.lines, d.y + 1, 0));
    }
  }

  predicate NoNewlines(lines: seq<seq<Byte>>) {
    forall i :: 0 <= i < |lines| ==> NEWLINE !in lines[i]
  }

  lemma {:induction false} StartOfLine(a: seq<Byte>, line: seq<Byte>, b: seq<Byte>, x: nat)
    requires NEWLINE !in line && x <= |line| && (a == [] || a[|a| - 1] == NEWLINE)
    ensures LineStart(a + line + b, |a| + x) == |a|
    decreases x
  {
    if x > 0 {
      assert (a + line + b)[|a| + x - 1] == line[x - 1];
      StartOfLine(a, line, b, x - 1);
    }
  }

  lemma {:induction false} EndOfLine(a: seq<Byte>, line: seq<Byte>, b: seq<Byte>, x: nat)
    requires NEWLINE !in line && x <= |line| && b != [] && b[0] == NEWLINE
    ensures LineEnd(a + line + b, |a| + x) == |a| + |line|
    decreases |line| - x
  {
    if x < |line| {
      assert (a + line + b)[|a| + x] == line[x];
      EndOfLine(a, line, b, x + 1);
    } else {
      assert (a + line + b)[|a| + x] == b[0];
    }
  }

  /** The lines before a place end in a newline. */
  lemma BeforeEnds(lines: seq<seq<Byte>>, y: nat)
    requires y <= |lines|
    ensures var t := Text(lines[..y]); t == [] || t[|t| - 1] == NEWLINE
    ensures (y == 0) == (Text(lines[..y]) == [])
    ensures y > 0 ==> Text(lines[..y]) == Text(lines[..y - 1]) + lines[y - 1] + [NEWLINE]
  {
    if y > 0 {
      assert lines[..y] == lines[..y - 1] + [lines[y - 1]];
      TextTwo(lines[..y - 1], lines[y - 1], [], []);
    }
  }

  /** The cursor's line, found in the flat text. */
  lemma LineOf(d: Doc)
    requires Wf(d) && NoNewlines(d.lines)
    ensures var f := Flatten(d);
            && f.at < |f.text| && LineStart(f.text, f.at) == |Text(d.lines[..d.y])|
            && LineEnd(f.text, f.at) == |Text(d.lines[..d.y])| + |d.lines[d.y]|
  {
    Around(d);
    BeforeEnds(d.lines, d.y);
    StartOfLine(Text(d.lines[..d.y]), d.lines[d.y], Rest(d.lines[d.y + 1..]), d.x);
    EndOfLine(Text(d.lines[..d.y]), d.lines[d.y], Rest(d.lines[d.y + 1..]), d.x);
  }

  lemma UpRefines(d: Doc)
    requires Wf(d) && NoNewlines(d.lines)
    ensures Flatten(d).at < |Flatten(d).text|
    ensures Flatten(Up(d)) == FlatPress(Flatten(d), UpKey)
  {
    LineOf(d);
    BeforeEnds(d.lines, d.y);
    if d.y > 0 {
      LineOf(Doc(d.lines, d.y - 1, |d.lines[d.y - 1]|));
    }
  }

  lemma DownRefines(d: Doc)
    requires Wf(d) && NoNewlines(d.lines)
    ensures Flatten(d).at < |Flatten(d).text|
    ensures Flatten(Down(d)) == FlatPress(Flatten(d), DownKey)
  {
    LineOf(d);
    BeforeEnds(d.lines, d.y + 1);
    if d.y < |d.lines| - 1 {
      LineOf(Doc(d.lines, d.y + 1, 0));
    } else {
      assert d.lines[..d.y + 1] == d.lines;
    }
  }

  /** A key refused changes nothing; any other edits the flat text at the cursor's offset, or moves that offset. */
  lemma PressRefines(d: Doc, k: Key)
    requires Wf(d) && (k.UpKey? || k.DownKey? ==> NoNewlines(d.lines))
    ensures Wf(Press(d, k)) && Flatten(d).at < |Flatten(d).text|
    ensures Refused(d, k) ==> Press(d, k) == d
    ensures !Refused(d, k) ==> Flatten(Press(d, k)) == FlatPress(Flatten(d), k)
  {
    WfKept(d, k);
    Around(d);
    if !Refused(d, k) {
      match k
      case Char(ch) => InsertRefines(d, ch);
      case EnterKey => EnterRefines(d);
      case BackspaceKey => BackspaceRefines(d);
      case LeftKey => LeftRefines(d);
      case RightKey => RightRefines(d);
      case UpKey => UpRefines(d);
      case DownKey => DownRefines(d);
    }
  }

  /** Keys in a row. */
  function PressAll(d: Doc, keys: seq<Key>): Doc
    requires Wf(d)
    decreases keys
  {
    if keys == [] then d else
    WfKept(d, keys[0]);
    PressAll(Press(d, keys[0]), keys[1..])
  }

  /** The keys of a session that are not refused. */
  function Accepted(d: Doc, keys: seq<Key>): seq<Key>
    requires Wf(d)
    decreases keys
  {
    if keys == [] then []
    else
      WfKept(d, keys[0]);
      (if Refused(d, keys[0]) then [] else [keys[0]]) + Accepted(Press(d, keys[0]), keys[1..])
  }

  /** The flat editor after the keys, all of which stay in its text. */
  ghost predicate FlatRun(f: Flat, keys: seq<Key>, end: Flat)
    decreases keys
  {
    if keys == [] then end == f
    else f.at < |f.text| && FlatRun(FlatPress(f, keys[0]), keys[1..], end)
  }

  /** A whole session edits one flat text by those of its keys that are not refused. */
  lemma {:induction false} SessionRefines(d: Doc, keys: seq<Key>)
    requires Wf(d) && NoNewlines(d.lines)
    ensures Wf(PressAll(d, keys)) && FlatRun(Flatten(d), Accepted(d, keys), Flatten(PressAll(d, keys)))
    decreases keys
  {
    if keys != [] {
      PressRefines(d, keys[0]);
      PressNoNewlines(d, keys[0]);
      SessionRefines(Press(d, keys[0]), keys[1..]);
      var rest := Accepted(Press(d, keys[0]), keys[1..]);
      if Refused(d, keys[0]) {
        assert [] + rest == rest;
      } else {
        assert ([keys[0]] + rest)[1..] == rest;
      }
    }
  }

  // ---- Undoing ------------------------------------------------------------------------------------

  /** Backspace undoes an enter if and only if the whole line is shorter than the buffer's row. A loaded line may
      fill the row: enter then splits it and backspace refuses to join it. */
  lemma EnterBackspace(d: Doc)
    requires Wf(d) && !Refused(d, EnterKey)
    ensures Wf(Enter(d))
    ensures Backspace(Enter(d)) == d <==> |d.lines[d.y]| < MAX_LINE_LEN
    ensures |d.lines[d.y]| == MAX_LINE_LEN ==> Backspace(Enter(d)) == Enter(d)
  {
    var e := Enter(d);
    var line := d.lines[d.y];
    assert e.lines[..d.y] == d.lines[..d.y] && e.lines[d.y + 2..] == d.lines[d.y + 1..];
    assert line[..d.x] + line[d.x..] == line;
    assert d.lines == d.lines[..d.y] + [line] + d.lines[d.y + 1..];
  }

  lemma InsertBackspace(d: Doc, ch: Typed)
    requires Wf(d) && !Refused(d, Char(ch))
    ensures Wf(InsertChar(d, ch)) && Backspace(InsertChar(d, ch)) == d
  {
    var line := d.lines[d.y];
    var line' := line[..d.x] + [ch] + line[d.x..];
    assert line'[..d.x] + line'[d.x + 1..] == line;
    assert d.lines[d.y := line'][d.y := line] == d.lines;
  }

  /** A join in two steps: the lines appended in the upper row, then the lower row removed. */
  lemma JoinSteps(d: Doc, joined: seq<seq<Byte>>, lines: seq<seq<Byte>>)
    requires Wf(d) && d.x == 0 && d.y > 0 && !Refused(d, BackspaceKey)
    requires joined == d.lines[d.y - 1 := d.lines[d.y - 1] + d.lines[d.y]]
    requires lines == joined[..d.y] + joined[d.y + 1..]
    ensures Doc(lines, d.y - 1, |d.lines[d.y - 1]|) == Backspace(d) && Wf(Backspace(d))
  {
    WfKept(d, BackspaceKey);
  }

  /** A split in two steps: room made for a row, then both rows written. */
  lemma SplitSteps(lines: seq<seq<Byte>>, widened: seq<seq<Byte>>, y: nat, first: seq<Byte>, second: seq<Byte>)
    requires y < |lines| && |widened| == |lines| + 1
    requires forall i :: 0 <= i <= y ==> widened[i] == lines[i]
    requires forall i :: y + 2 <= i < |widened| ==> widened[i] == lines[i - 1]
    ensures widened[y := first][y + 1 := second] == lines[..y] + [first, second] + lines[y + 1..]
  {
  }

  // ---- Loading and saving -------------------------------------------------------------------------

  /** Lines of a file, after the part already read of the first; a last line needs no newline. */
  function Split(bytes: seq<Byte>, part: seq<Byte>): seq<seq<Byte>>
    decreases bytes
  {
    if bytes == [] then (if part == [] then [] else [part])
    else if bytes[0] == NEWLINE then [part] + Split(bytes[1..], [])
    else Split(bytes[1..], part + [bytes[0]])
  }

  function Clip(line: seq<Byte>): seq<Byte> {
    if |line| <= MAX_LINE_LEN then line else line[..MAX_LINE_LEN]
  }

  function ClipAll(lines: seq<seq<Byte>>): (r: seq<seq<Byte>>)
    ensures |r| == |lines|
    ensures forall i :: 0 <= i < |lines| ==> r[i] == Clip(lines[i])
  {
    seq(|lines|, i requires 0 <= i < |lines| => Clip(lines[i]))
  }

  /** What `load_file` leaves in a new editor: long lines are cut, lines past the last row are dropped. */
  function Load(bytes: seq<Byte>): seq<seq<Byte>> {
    var all := ClipAll(Split(bytes, []));
    if all == [] then [[]] else if |all| <= MAX_LINES then all else all[..MAX_LINES]
  }

  /** Where reading stands: complete lines, and the part of the next one. */
  ghost predicate Reading(file: seq<Byte>, i: nat, lines: seq<seq<Byte>>, done: seq<seq<Byte>>, part: seq<Byte>) {
    i <= |file| && lines == ClipAll(done) && Split(file, []) == done + Split(file[i..], part)
  }

  lemma ReadNewline(file: seq<Byte>, i: nat, lines: seq<seq<Byte>>, done: seq<seq<Byte>>, part: seq<Byte>)
    requires Reading(file, i, lines, done, part) && i < |file| && file[i] == NEWLINE
    ensures Reading(file, i + 1, lines + [Clip(part)], done + [part], [])
  {
    assert file[i..][1..] == file[i + 1..];
    assert ClipAll(done + [part]) == ClipAll(done) + [Clip(part)];
  }

  lemma ReadByte(file: seq<Byte>, i: nat, lines: seq<seq<Byte>>, done: seq<seq<Byte>>, part: seq<Byte>)
    requires Reading(file, i, lines, done, part) && i < |file| && file[i] != NEWLINE
    ensures Reading(file, i + 1, lines, done, part + [file[i]])
    ensures Clip(Clip(part) + [file[i]]) == Clip(part + [file[i]])
  {
    assert file[i..][1..] == file[i + 1..];
  }

  /** No room for more lines. */
  lemma ReadFull(file: seq<Byte>, i: nat, lines: seq<seq<Byte>>, done: seq<seq<Byte>>, part: seq<Byte>)
    requires Reading(file, i, lines, done, part) && |lines| == MAX_LINES
    ensures Load(file) == lines
  {
    var all := ClipAll(Split(file, []));
    assert all[..MAX_LINES] == lines;
  }

  /** The end of the file. */
  lemma ReadEnd(file: seq<Byte>, lines: seq<seq<Byte>>, done: seq<seq<Byte>>, part: seq<Byte>)
    requires Reading(file, |file|, lines, done, part) && |lines| < MAX_LINES
    ensures Load(file) == (var all := if part == [] then lines else lines + [Clip(part)]; if all == [] then [[]] else all)
  {
    assert file[|file|..] == [];
    assert ClipAll(done + [part]) == ClipAll(done) + [Clip(part)];
    assert done + [] == done;
  }

  lemma {:induction false} SplitLine(line: seq<Byte>, rest: seq<Byte>, part: seq<Byte>)
    requires NEWLINE !in line
    ensures Split(line + [NEWLINE] + rest, part) == [part + line] + Split(rest, [])
    decreases line
  {
    var bytes := line + [NEWLINE] + rest;
    if line == [] {
      assert bytes[1..] == rest && part + line == part;
    } else {
      SplitLine(line[1..], rest, part + [line[0]]);
      assert bytes[1..] == line[1..] + [NEWLINE] + rest;
      assert part + [line[0]] + line[1..] == part + line;
    }
  }

  lemma {:induction false} SplitText(lines: seq<seq<Byte>>)
    requires NoNewlines(lines)
    ensures Split(Text(lines), []) == lines
  {
    if lines != [] {
      SplitLine(lines[0], Text(lines[1..]), []);
      SplitText(lines[1..]);
      assert [] + lines[0] == lines[0];
    }
  }

  /** Loading what was saved gives back the same lines. */
  lemma SaveLoad(lines: seq<seq<Byte>>)
    requires LinesOk(lines) && NoNewlines(lines)
    ensures Load(Text(lines)) == lines
  {
    SplitText(lines);
    assert ClipAll(lines) == lines;
  }

  /** Loading any file leaves an editor state, and saving it and loading it again changes nothing more. */
  lemma LoadOk(bytes: seq<Byte>)
    ensures LinesOk(Load(bytes)) && NoNewlines(Load(bytes)) && Load(Text(Load(bytes))) == Load(bytes)
  {
    SplitNoNewlines(bytes, []);
    SaveLoad(Load(bytes));
  }

  lemma {:induction false} SplitNoNewlines(bytes: seq<Byte>, part: seq<Byte>)
    requires NEWLINE !in part
    ensures NoNewlines(Split(bytes, part))
    decreases bytes
  {
    if bytes != [] {
      if bytes[0] == NEWLINE {
        SplitNoNewlines(bytes[1..], []);
      } else {
        SplitNoNewlines(bytes[1..], part + [bytes[0]]);
      }
    }
  }

  lemma {:induction false} SplitPlain(bytes: seq<Byte>, part: seq<Byte>)
    requires NEWLINE !in bytes
    ensures Split(bytes, part) == if part + bytes == [] then [] else [part + bytes]
    decreases bytes
  {
    if bytes != [] {
      SplitPlain(bytes[1..], part + [bytes[0]]);
      assert part + [bytes[0]] + bytes[1..] == part + bytes;
    } else {
      assert part + bytes == part;
    }
  }

  /** A file of one line that fills a row, as many times the same byte for one, is loaded so: enter splits the line, and
      backspace does not join it again. */
  lemma FullRow(file: seq<Byte>)
    requires |file| == MAX_LINE_LEN && NEWLINE !in file
    ensures Load(file) == [file]
    ensures var d := Doc(Load(file), 0, 0); Wf(d) && !Refused(d, EnterKey) && Backspace(Enter(d)) == Enter(d) != d
    ensures var zeros: seq<Byte> := seq(MAX_LINE_LEN, _ => 0); |zeros| == MAX_LINE_LEN && NEWLINE !in zeros
  {
    SplitPlain(file, []);
    assert [] + file == file;
    assert ClipAll([file]) == [file];
    EnterBackspace(Doc([file], 0, 0));
  }

  /** Keys keep lines free of newlines. */
  lemma PressNoNewlines(d: Doc, k: Key)
    requires Wf(d) && NoNewlines(d.lines)
    ensures NoNewlines(Press(d, k).lines)
  {
  }

  /** After any session, loading what is saved gives back the same lines. */
  lemma {:induction false} SessionSaves(d: Doc, keys: seq<Key>)
    requires Wf(d) && NoNewlines(d.lines)
    ensures Load(Text(PressAll(d, keys).lines)) == PressAll(d, keys).lines
    decreases keys
  {
    if keys == [] {
      SaveLoad(d.lines);
    } else {
      WfKept(d, keys[0]);
      PressNoNewlines(d, keys[0]);
      SessionSaves(Press(d, keys[0]), keys[1..]);
    }
  }
}
