/** The shell's input line and history ring (kernel/shell.c), and the list of submitted lines the
    ring stands for. */
module History {
  import opened Words
  import opened Names

  // ----- the list the ring stands for -----

  /** A line that can be typed. */
  predicate Printable(c: byte) { 32 <= c <= 126 }

  predicate IsLine(s: seq<byte>) {
    |s| <= 255 && forall i | 0 <= i < |s| :: Printable(s[i])
  }

  /** The lines submitted, without empty ones and without a line equal to the one before it. */
  function Collapse(lines: seq<seq<byte>>): seq<seq<byte>> {
    if lines == [] then [] else Remember(Collapse(lines[..|lines| - 1]), lines[|lines| - 1])
  }

  function Remember(entries: seq<seq<byte>>, line: seq<byte>): seq<seq<byte>> {
    if line == [] || (entries != [] && entries[|entries| - 1] == line) then entries else entries + [line]
  }

  function LastTen(entries: seq<seq<byte>>): (r: seq<seq<byte>>)
    ensures |r| <= 10
  {
    if |entries| <= 10 then entries else entries[|entries| - 10..]
  }

  function Recent(submitted: seq<seq<byte>>): (r: seq<seq<byte>>)
    ensures |r| <= 10
  {
    LastTen(Collapse(submitted))
  }

  /** What a user sees: the line so far, which entry is shown, the escape sequence under way, and
      all lines submitted before. */
  datatype Session = Session(line: seq<byte>, index: nat, escape: nat, submitted: seq<seq<byte>>) {
    ghost predicate Ok() {
      && IsLine(line) && escape <= 2 && index <= |Recent(submitted)|
      && forall i | 0 <= i < |submitted| :: IsLine(submitted[i])
    }
  }

  function Up(s: Session): Session {
    var r := Recent(s.submitted);
    if 0 < s.index <= |r| then s.(index := s.index - 1, line := r[s.index - 1]) else s
  }

  function Down(s: Session): Session {
    var r := Recent(s.submitted);
    if s.index < |r| then s.(index := s.index + 1, line := if s.index + 1 < |r| then r[s.index + 1] else s.line) else s
  }

  function Enter(s: Session): Session {
    if s.line == [] then s
    else
      var submitted := s.submitted + [s.line];
      s.(line := [], submitted := submitted, index := |Recent(submitted)|)
  }

  /** One character. */
  function Next(s: Session, c: byte): Session {
    if s.escape == 1 then s.(escape := if c == 0x5B then 2 else 0)
    else if s.escape == 2 then (if c == 0x41 then Up(s) else if c == 0x42 then Down(s) else s).(escape := 0)
    else if c == 0x1B then s.(escape := 1)
    else if c == 0x0A || c == 0x0D then Enter(s)
    else if c == 0x08 then (if s.line == [] then s else s.(line := s.line[..|s.line| - 1]))
    else if |s.line| < 255 && Printable(c) then s.(line := s.line + [c])
    else s
  }

  function Run(s: Session, cs: seq<byte>): Session {
    if cs == [] then s else Next(Run(s, cs[..|cs| - 1]), cs[|cs| - 1])
  }

  lemma CollapseOne(lines: seq<seq<byte>>, line: seq<byte>)
    ensures Collapse(lines + [line]) == Remember(Collapse(lines), line)
  {
    assert (lines + [line])[..|lines|] == lines;
  }

  lemma {:induction false} CollapsedLines(lines: seq<seq<byte>>)
    requires forall i | 0 <= i < |lines| :: IsLine(lines[i])
    ensures forall i | 0 <= i < |Collapse(lines)| :: IsLine(Collapse(lines)[i]) && Collapse(lines)[i] != []
    ensures forall i | 0 < i < |Collapse(lines)| :: Collapse(lines)[i - 1] != Collapse(lines)[i]
  {
    if lines != [] { CollapsedLines(lines[..|lines| - 1]); }
  }

  /** The entries that can be shown are lines, not empty, and no two neighbours are equal. */
  lemma RecentLines(lines: seq<seq<byte>>)
    requires forall i | 0 <= i < |lines| :: IsLine(lines[i])
    ensures forall i | 0 <= i < |Recent(lines)| :: IsLine(Recent(lines)[i]) && Recent(lines)[i] != []
    ensures forall i | 0 < i < |Recent(lines)| :: Recent(lines)[i - 1] != Recent(lines)[i]
  {
    CollapsedLines(lines);
  }

  /** The last entry shown is the last one remembered. */
  lemma RecentLast(lines: seq<seq<byte>>)
    ensures Recent(lines) == [] <==> Collapse(lines) == []
    ensures Recent(lines) != [] ==> Recent(lines)[|Recent(lines)| - 1] == Collapse(lines)[|Collapse(lines)| - 1]
  {
  }

  /** Submitting one line more. */
  lemma RecentOne(lines: seq<seq<byte>>, line: seq<byte>)
    ensures Recent([]) == []
    ensures var r := Recent(lines);
      Recent(lines + [line]) ==
        if line == [] || (r != [] && r[|r| - 1] == line) then r
        else if |r| < 10 then r + [line] else r[1..] + [line]
  {
    CollapseOne(lines, line);
    RecentLast(lines);
  }

  lemma NextOk(s: Session, c: byte)
    requires s.Ok()
    ensures Next(s, c).Ok()
  {
    RecentLines(s.submitted);
    hide Recent;
  }

  /** Whatever is typed: the line stays within its buffer and the shown entry within the ring. */
  lemma {:induction false} RunOk(s: Session, cs: seq<byte>)
    requires s.Ok()
    ensures Run(s, cs).Ok()
    ensures |Run(s, cs).line| <= 255 && forall i | 0 <= i < |Run(s, cs).line| :: 32 <= Run(s, cs).line[i] <= 126
    ensures Run(s, cs).index <= |Recent(Run(s, cs).submitted)| <= 10
  {
    hide Next, Recent;
    if cs != [] {
      RunOk(s, cs[..|cs| - 1]);
      NextOk(Run(s, cs[..|cs| - 1]), cs[|cs| - 1]);
    }
  }

  // ----- what the keys do -----

  /** The characters an arrow key sends. */
  const UP: seq<byte> := [0x1B, 0x5B, 0x41]
  const DOWN: seq<byte> := [0x1B, 0x5B, 0x42]

  lemma {:induction false} RunConcat(s: Session, a: seq<byte>, b: seq<byte>)
    ensures Run(s, a + b) == Run(Run(s, a), b)
  {
    if b == [] {
      assert a + b == a;
    } else {
      assert (a + b)[..|a + b| - 1] == a + b[..|b| - 1];
      RunConcat(s, a, b[..|b| - 1]);
    }
  }

  lemma RunOne(s: Session, c: byte)
    ensures Run(s, [c]) == Next(s, c)
  {
    assert [c][..0] == [] && Run(s, []) == s;
  }

  lemma ArrowKeys(s: Session)
    requires s.escape == 0
    ensures Run(s, UP) == Up(s) && Run(s, DOWN) == Down(s)
  {
    hide Up, Down, Enter;
    var s1, s2 := s.(escape := 1), s.(escape := 2);
    assert Next(s, 0x1B) == s1 && Next(s1, 0x5B) == s2;
    RunOne(s, 0x1B);
    RunOne(s1, 0x5B);
    RunOne(s2, 0x41);
    RunOne(s2, 0x42);
    RunConcat(s, [0x1B], [0x5B]);
    RunConcat(s, [0x1B, 0x5B], [0x41]);
    RunConcat(s, [0x1B, 0x5B], [0x42]);
    assert UP == [0x1B] + [0x5B] + [0x41] && DOWN == [0x1B] + [0x5B] + [0x42];
    hide Run;
    ArrowStep(s);
  }

  lemma ArrowStep(s: Session)
    requires s.escape == 0
    ensures Next(s.(escape := 2), 0x41) == Up(s) && Next(s.(escape := 2), 0x42) == Down(s)
  {
  }

  /** Typing printable characters appends them, up to 255. */
  lemma {:induction false} Typing(s: Session, w: seq<byte>)
    requires s.escape == 0 && |s.line| + |w| <= 255 && forall i | 0 <= i < |w| :: 32 <= w[i] <= 126
    ensures Run(s, w) == s.(line := s.line + w)
  {
    if w == [] {
      assert s.line + [] == s.line;
    } else {
      Typing(s, w[..|w| - 1]);
      assert s.line + w[..|w| - 1] + [w[|w| - 1]] == s.line + w;
    }
  }

  /** Backspace takes back the last character typed. */
  lemma BackspaceErases(s: Session, c: byte)
    requires s.escape == 0 && |s.line| < 255 && 32 <= c <= 126
    ensures Run(s, [c, 0x08]) == s
  {
    var t := s.(line := s.line + [c]);
    assert t.line[..|t.line| - 1] == s.line;
    assert Next(s, c) == t && Next(t, 0x08) == s;
    hide Next;
    RunOne(s, c);
    RunOne(t, 0x08);
    RunConcat(s, [c], [0x08]);
  }

  /** What does nothing: Backspace and Enter at an empty line, a character of no meaning or beyond the
      255th, an escape sequence that is no arrow; and carriage return is Enter as well. */
  lemma KeysWithoutEffect(s: Session, c: byte)
    requires s.escape == 0
    ensures s.line == [] ==> Next(s, 0x08) == s && Next(s, 0x0A) == s
    ensures c !in [0x08, 0x0A, 0x0D, 0x1B] && (c < 32 || c > 126 || |s.line| >= 255) ==> Next(s, c) == s
    ensures c != 0x5B ==> Run(s, [0x1B, c]) == s
    ensures c != 0x41 && c != 0x42 ==> Run(s, [0x1B, 0x5B, c]) == s
    ensures Next(s, 0x0D) == Next(s, 0x0A)
  {
    var s1, s2 := s.(escape := 1), s.(escape := 2);
    hide Up, Down, Enter;
    RunOne(s, 0x1B);
    RunOne(s1, c);
    RunOne(s1, 0x5B);
    RunOne(s2, c);
    hide Run;
    RunConcat(s, [0x1B], [c]);
    RunConcat(s, [0x1B], [0x5B]);
    RunConcat(s, [0x1B, 0x5B], [c]);
    assert [0x1B] + [c] == [0x1B, c] && [0x1B] + [0x5B] == [0x1B, 0x5B] && [0x1B, 0x5B] + [c] == [0x1B, 0x5B, c];
    EmptyLine(s);
  }

  lemma EmptyLine(s: Session)
    ensures s.line == [] ==> Enter(s) == s
  {
  }

  /** A line typed at an empty prompt and entered is submitted; the next Up shows it again. */
  lemma TypedThenRecalled(s: Session, w: seq<byte>)
    requires s.escape == 0 && s.line == [] && 0 < |w| <= 255 && forall i | 0 <= i < |w| :: 32 <= w[i] <= 126
    ensures var t := Run(s, w + [0x0A]);
      && t == Session([], |Recent(s.submitted + [w])|, 0, s.submitted + [w])
      && Run(t, UP).line == w
      && Run(s, w + [0x0A] + UP).line == w
  {
    hide Run, Recent, Up;
    Typing(s, w);
    assert s.line + w == w;
    RunConcat(s, w, [0x0A]);
    EnterPressed(s.(line := w));
    var t := Run(s, w + [0x0A]);
    RunConcat(s, w + [0x0A], UP);
    ArrowKeys(t);
    UpAfterEnter(t, s.submitted, w);
  }

  lemma EnterPressed(s: Session)
    requires s.escape == 0 && s.line != []
    ensures Run(s, [0x0A]) == Enter(s)
  {
    RunOne(s, 0x0A);
  }

  lemma UpAfterEnter(t: Session, lines: seq<seq<byte>>, w: seq<byte>)
    requires t.submitted == lines + [w] && w != [] && t.index == |Recent(lines + [w])|
    ensures Up(t).line == w
  {
    RecentOne(lines, w);
    hide Recent;
  }

  /** k presses of an arrow key. */
  function Presses(key: seq<byte>, k: nat): seq<byte> {
    if k == 0 then [] else Presses(key, k - 1) + key
  }

  /** Pressing Up k times from the prompt shows the k-th entry from the end, and stays at the first. */
  lemma {:induction false} UpMany(s: Session, k: nat)
    requires s.escape == 0 && s.index == |Recent(s.submitted)|
    ensures var r, t := Recent(s.submitted), Run(s, Presses(UP, k));
      && t.escape == 0 && t.submitted == s.submitted
      && t.index == (if k <= |r| then |r| - k else 0)
      && (k > 0 && r != [] ==> t.line == r[t.index])
  {
    if k == 0 {
      assert Run(s, Presses(UP, 0)) == s;
    } else {
      hide Run, Recent, Presses, Up;
      UpMany(s, k - 1);
      PressOne(s, k);
      UpStep(Run(s, Presses(UP, k - 1)), Recent(s.submitted), k);
    }
  }

  lemma PressOne(s: Session, k: nat)
    requires k > 0 && Run(s, Presses(UP, k - 1)).escape == 0
    ensures Run(s, Presses(UP, k)) == Up(Run(s, Presses(UP, k - 1)))
  {
    assert Presses(UP, k) == Presses(UP, k - 1) + UP;
    hide Run, Presses, Up;
    RunConcat(s, Presses(UP, k - 1), UP);
    ArrowKeys(Run(s, Presses(UP, k - 1)));
  }

  lemma UpStep(t: Session, r: seq<seq<byte>>, k: nat)
    requires k > 0 && r == Recent(t.submitted) && t.index == (if k - 1 <= |r| then |r| - (k - 1) else 0)
    requires k > 1 && r != [] ==> t.line == r[t.index]
    ensures var u := Up(t);
      && u.escape == t.escape && u.submitted == t.submitted
      && u.index == (if k <= |r| then |r| - k else 0)
      && (r != [] ==> u.line == r[u.index])
  {
    hide Recent;
  }

  /** Pressing Down k times at an entry shows the k-th entry after it, and stays at the last one; at the
      prompt it does nothing. */
  lemma {:induction false} DownMany(s: Session, k: nat)
    requires s.escape == 0 && s.index <= |Recent(s.submitted)|
    requires s.index < |Recent(s.submitted)| ==> s.line == Recent(s.submitted)[s.index]
    ensures ShownAfter(s, k, Run(s, Presses(DOWN, k)))
  {
    hide *;
    if k == 0 {
      ShownHere(s);
    } else {
      DownMany(s, k - 1);
      ShownEscape(s, k - 1, Run(s, Presses(DOWN, k - 1)));
      PressDown(s, k);
      DownStep(s, k, Run(s, Presses(DOWN, k - 1)));
    }
  }

  /** The entry k places after the one s shows, or the last one. */
  predicate ShownAfter(s: Session, k: nat, t: Session) {
    var r := Recent(s.submitted);
    && t.escape == 0 && t.submitted == s.submitted
    && t.index == (if s.index + k <= |r| then s.index + k else |r|)
    && t.line == if s.index >= |r| then s.line else if s.index + k < |r| then r[s.index + k] else r[|r| - 1]
  }

  lemma ShownHere(s: Session)
    requires s.escape == 0 && s.index <= |Recent(s.submitted)|
    requires s.index < |Recent(s.submitted)| ==> s.line == Recent(s.submitted)[s.index]
    ensures ShownAfter(s, 0, s) && Run(s, Presses(DOWN, 0)) == s
  {
    hide Recent;
  }

  lemma ShownEscape(s: Session, k: nat, t: Session)
    requires ShownAfter(s, k, t)
    ensures t.escape == 0
  {
    hide Recent;
  }

  lemma PressDown(s: Session, k: nat)
    requires k > 0 && Run(s, Presses(DOWN, k - 1)).escape == 0
    ensures Run(s, Presses(DOWN, k)) == Down(Run(s, Presses(DOWN, k - 1)))
  {
    assert Presses(DOWN, k) == Presses(DOWN, k - 1) + DOWN;
    hide Run, Presses, Down;
    RunConcat(s, Presses(DOWN, k - 1), DOWN);
    ArrowKeys(Run(s, Presses(DOWN, k - 1)));
  }

  lemma DownStep(s: Session, k: nat, t: Session)
    requires k > 0 && s.index <= |Recent(s.submitted)| && ShownAfter(s, k - 1, t)
    ensures ShownAfter(s, k, Down(t))
  {
    hide Recent;
  }

  /** Up then Down comes back to the entry shown before; from the prompt it does not bring back what
      was typed there: the line stays the last entry. */
  lemma UpThenDown(s: Session)
    requires s.escape == 0 && 0 < s.index <= |Recent(s.submitted)|
    ensures var r, t := Recent(s.submitted), Run(s, UP + DOWN);
      && t.index == s.index
      && t.line == if s.index < |r| then r[s.index] else r[|r| - 1]
  {
    RunConcat(s, UP, DOWN);
    ArrowKeys(s);
    ArrowKeys(Up(s));
    hide Run, Recent;
  }

  // ----- the ring -----

  /** Entry i of the ring, oldest first. */
  function RingIndex(pos: nat, count: nat, i: nat): (k: nat)
    requires i < count <= 10
    ensures k < 10
  {
    (pos + 10 - (count - i)) % 10
  }

  /** The place after pos. */
  function After(pos: nat): (k: nat)
    ensures k < 10
  {
    (pos + 1) % 10
  }

  function Ring(h: seq<seq<byte>>, pos: nat, count: nat): (r: seq<seq<byte>>)
    requires |h| == 10 && count <= 10
    ensures |r| == count && forall i: nat | i < count :: r[i] == h[RingIndex(pos, count, i)]
  {
    seq<seq<byte>>(count, i requires 0 <= i < count => h[RingIndex(pos, count, i)])
  }

  /** Storing at pos and moving on appends, and drops the oldest entry of a full ring. */
  lemma RingPush(h: seq<seq<byte>>, pos: nat, count: nat, cmd: seq<byte>)
    requires |h| == 10 && pos < 10 && count <= 10
    ensures var r := Ring(h, pos, count);
      Ring(h[pos := cmd], After(pos), if count < 10 then count + 1 else count) ==
        if count < 10 then r + [cmd] else r[1..] + [cmd]
  {
    var r, n := Ring(h, pos, count), if count < 10 then count + 1 else count;
    var h', pos' := h[pos := cmd], After(pos);
    forall i: nat | i < n ensures h'[RingIndex(pos', n, i)] == if i == n - 1 then cmd else r[i + count + 1 - n] {
      PushIndex(pos, count, i);
      hide RingIndex;
      if i < n - 1 { assert r[i + count + 1 - n] == h[RingIndex(pos, count, i + count + 1 - n)]; }
    }
  }

  lemma IndexForm(pos: nat, count: nat, i: nat)
    requires i < count <= 10 && pos < 10
    ensures RingIndex(pos, count, i) == if pos >= count - i then pos - (count - i) else pos + 10 - (count - i)
  {
  }

  /** Entries keep their places; the newest is where the ring stood. */
  lemma PushIndex(pos: nat, count: nat, i: nat)
    requires pos < 10 && count <= 10
    requires i < if count < 10 then count + 1 else count
    ensures var n := if count < 10 then count + 1 else count;
      if i == n - 1 then RingIndex(After(pos), n, i) == pos
      else RingIndex(After(pos), n, i) == RingIndex(pos, count, i + count + 1 - n) != pos
  {
    var n := if count < 10 then count + 1 else count;
    var pos' := if pos == 9 then 0 else pos + 1;
    assert After(pos) == pos';
    IndexForm(pos', n, i);
    if i < n - 1 { IndexForm(pos, count, i + count + 1 - n); }
    hide RingIndex;
  }

  /** The ring stands for the recent entries of the session. */
  ghost predicate Good(s: Session, h: seq<seq<byte>>, pos: nat, count: nat) {
    |h| == 10 && pos < 10 && count <= 10 && Ring(h, pos, count) == Recent(s.submitted) && s.Ok()
  }

  lemma GoodMeans(s: Session, h: seq<seq<byte>>, pos: nat, count: nat)
    requires Good(s, h, pos, count)
    ensures |h| == 10 && pos < 10 && count <= 10 && s.index <= count == |Recent(s.submitted)|
    ensures |s.line| <= 255 && s.escape <= 2 && 0 !in s.line
  {
  }

  lemma NextGood(s: Session, h: seq<seq<byte>>, pos: nat, count: nat, c: byte)
    requires Good(s, h, pos, count) && Next(s, c).submitted == s.submitted
    ensures Good(Next(s, c), h, pos, count)
  {
    NextOk(s, c);
  }

  lemma UpGood(s: Session, h: seq<seq<byte>>, pos: nat, count: nat)
    requires Good(s, h, pos, count)
    ensures Good(Up(s), h, pos, count)
    ensures count == 0 || s.index == 0 ==> Up(s) == s
    ensures 0 < s.index ==> Up(s) == s.(index := s.index - 1, line := h[RingIndex(pos, count, s.index - 1)])
    ensures 0 < s.index ==> |h[RingIndex(pos, count, s.index - 1)]| <= 255
  {
    RecentLines(s.submitted);
    hide Recent;
    if 0 < s.index { assert Ring(h, pos, count)[s.index - 1] == Recent(s.submitted)[s.index - 1]; }
  }

  lemma DownGood(s: Session, h: seq<seq<byte>>, pos: nat, count: nat)
    requires Good(s, h, pos, count)
    ensures Good(Down(s), h, pos, count)
    ensures s.index == count ==> Down(s) == s
    ensures s.index + 1 == count ==> Down(s) == s.(index := count)
    ensures s.index + 1 < count ==>
      && Down(s) == s.(index := s.index + 1, line := h[RingIndex(pos, count, s.index + 1)])
      && |h[RingIndex(pos, count, s.index + 1)]| <= 255
  {
    RecentLines(s.submitted);
    hide Recent;
    if s.index + 1 < count { assert Ring(h, pos, count)[s.index + 1] == Recent(s.submitted)[s.index + 1]; }
  }

  datatype RingState = RingState(rows: seq<seq<byte>>, pos: nat, count: nat)

  /** An empty line, or the line stored last. */
  predicate Repeats(h: seq<seq<byte>>, pos: nat, count: nat, cmd: seq<byte>)
    requires |h| == 10 && pos < 10 && count <= 10
  {
    cmd == [] || (count > 0 && h[RingIndex(pos, count, count - 1)] == cmd)
  }

  /** What shell_save_to_history leaves of the ring. */
  function Stored(h: seq<seq<byte>>, pos: nat, count: nat, cmd: seq<byte>): RingState
    requires |h| == 10 && pos < 10 && count <= 10
  {
    if Repeats(h, pos, count, cmd) then RingState(h, pos, count)
    else RingState(h[pos := cmd], After(pos), if count < 10 then count + 1 else count)
  }

  lemma EnterGood(s: Session, h: seq<seq<byte>>, pos: nat, count: nat)
    requires Good(s, h, pos, count) && s.line != []
    ensures var r := Stored(h, pos, count, s.line);
      && Enter(s) == s.(line := [], submitted := s.submitted + [s.line], index := r.count)
      && Good(Enter(s), r.rows, r.pos, r.count)
  {
    var r := Stored(h, pos, count, s.line);
    StoredIsRecent(s, h, pos, count);
    hide Recent, Ring, RingIndex, After, Stored;
    assert Ring(r.rows, r.pos, r.count) == Recent(s.submitted + [s.line]);
  }

  /** Storing the line keeps the ring equal to the recent entries. */
  lemma StoredIsRecent(s: Session, h: seq<seq<byte>>, pos: nat, count: nat)
    requires Good(s, h, pos, count) && s.line != []
    ensures var r := Stored(h, pos, count, s.line);
      |r.rows| == 10 && r.pos < 10 && r.count <= 10 && Ring(r.rows, r.pos, r.count) == Recent(s.submitted + [s.line])
  {
    RecentOne(s.submitted, s.line);
    RingPush(h, pos, count, s.line);
    assert count > 0 ==> Ring(h, pos, count)[count - 1] == h[RingIndex(pos, count, count - 1)];
    hide Recent, Ring, RingIndex, IsLine;
  }

  // ----- the shell -----

  class Shell {
    const inputBuffer: array<byte>
    var bufferPos: nat
    const history: array<seq<byte>>
    var historyCount: nat
    var historyIndex: nat
    var historyPos: nat
    var escapeState: nat
    ghost var submitted: seq<seq<byte>>

    ghost function View(): Session
      reads this, inputBuffer
      requires bufferPos <= inputBuffer.Length
    {
      Session(inputBuffer[..bufferPos], historyIndex, escapeState, submitted)
    }

    ghost predicate Valid()
      reads this, inputBuffer, history
    {
      && inputBuffer.Length == 256 && bufferPos <= 255
      && Good(View(), history[..], historyPos, historyCount)
    }

    /** shell_init. */
    constructor ()
      ensures Valid() && View() == Session([], 0, 0, [])
      ensures fresh(inputBuffer) && fresh(history)
    {
      inputBuffer := new byte[256];
      history := new seq<byte>[10](_ => []);
      bufferPos, historyCount, historyIndex, historyPos, escapeState := 0, 0, 0, 0, 0;
      submitted := [];
    }

    lemma Established(s: Session)
      requires inputBuffer.Length == 256 && bufferPos <= 255 && inputBuffer[..bufferPos] == s.line
      requires historyIndex == s.index && escapeState == s.escape && submitted == s.submitted
      requires Good(s, history[..], historyPos, historyCount)
      ensures Valid() && View() == s
    {
      hide Good;
    }

    /** What Valid says about the fields. */
    lemma Parts()
      requires Valid()
      ensures inputBuffer.Length == 256 && bufferPos <= 255 && Good(View(), history[..], historyPos, historyCount)
      ensures View().line == inputBuffer[..bufferPos] && View().submitted == submitted
      ensures View().index == historyIndex && View().escape == escapeState
    {
    }

    /** strcpy into the input buffer, and the length it takes. */
    method LoadLine(cmd: seq<byte>)
      requires inputBuffer.Length == 256 && |cmd| <= 255
      modifies this`bufferPos, inputBuffer
      ensures bufferPos == |cmd| && inputBuffer[..bufferPos] == cmd
    {
      var i := 0;
      while i < |cmd|
        invariant i <= |cmd| && inputBuffer[..i] == cmd[..i]
      {
        inputBuffer[i] := cmd[i];
        i := i + 1;
      }
      inputBuffer[i] := 0;
      assert inputBuffer[..i] == cmd;
      bufferPos := i;
    }

    /** `input_buffer[buffer_pos] = '\0'`. */
    method TerminateLine()
      requires Valid()
      modifies inputBuffer
      ensures Valid() && View() == old(View()) && inputBuffer[bufferPos] == 0
    {
      hide Good;
      ghost var s := View();
      inputBuffer[bufferPos] := 0;
      assert View() == s;
    }

    /** shell_show_history_up. */
    method ShowHistoryUp()
      requires Valid()
      modifies this, inputBuffer
      ensures Valid() && View() == Up(old(View()))
    {
      hide *;
      Parts();
      ghost var s := View();
      UpGood(s, history[..], historyPos, historyCount);
      GoodMeans(s, history[..], historyPos, historyCount);
      if historyCount == 0 { return; }
      if historyIndex == historyCount { TerminateLine(); }
      Parts();
      if historyIndex > 0 {
        historyIndex := historyIndex - 1;
        var idx := RingIndex(historyPos, historyCount, historyIndex);
        LoadLine(history[idx]);
        Established(Up(s));
      }
    }

    /** shell_show_history_down. */
    method ShowHistoryDown()
      requires Valid()
      modifies this, inputBuffer
      ensures Valid() && View() == Down(old(View()))
    {
      hide *;
      Parts();
      ghost var s := View();
      DownGood(s, history[..], historyPos, historyCount);
      GoodMeans(s, history[..], historyPos, historyCount);
      if historyCount == 0 { return; }
      if historyIndex < historyCount {
        historyIndex := historyIndex + 1;
        if historyIndex == historyCount {
          inputBuffer[bufferPos] := 0;
          assert inputBuffer[..bufferPos] == s.line;
        } else {
          var idx := RingIndex(historyPos, historyCount, historyIndex);
          LoadLine(history[idx]);
        }
        Established(Down(s));
      }
    }

    /** The string in the input buffer, up to its terminator. */
    method BufferString() returns (s: seq<byte>)
      requires inputBuffer.Length == 256 && bufferPos <= 255 && inputBuffer[bufferPos] == 0
      requires 0 !in inputBuffer[..bufferPos]
      ensures s == inputBuffer[..bufferPos]
    {
      var n := 0;
      while inputBuffer[n] != 0
        invariant n <= bufferPos
        decreases bufferPos - n
      {
        assert n < bufferPos;
        n := n + 1;
      }
      s := inputBuffer[..n];
    }

    /** shell_save_to_history. */
    method SaveToHistory(cmd: seq<byte>)
      requires historyCount <= 10 && historyPos < 10 && history.Length == 10
      modifies this`historyPos, this`historyCount, this`historyIndex, history
      ensures RingState(history[..], historyPos, historyCount) == Stored(old(history[..]), old(historyPos), old(historyCount), cmd)
      ensures historyIndex ==
        if Repeats(old(history[..]), old(historyPos), old(historyCount), cmd) then old(historyIndex) else historyCount
    {
      if |cmd| == 0 { return; }
      if historyCount > 0 {
        var lastCmd := history[(historyPos + 10 - 1) % 10];
        if cmd == lastCmd { return; }
      }
      history[historyPos] := cmd;
      historyPos := After(historyPos);
      if historyCount < 10 { historyCount := historyCount + 1; }
      historyIndex := historyCount;
    }

    /** What Enter does with the submitted line; running the command is left out. */
    method Submit(cmd: seq<byte>)
      requires Valid() && cmd == View().line != []
      modifies this, history
      ensures Valid() && View() == Enter(old(View()))
    {
      hide *;
      Parts();
      ghost var s := View();
      EnterGood(s, history[..], historyPos, historyCount);
      GoodMeans(s, history[..], historyPos, historyCount);
      ghost var r := Stored(history[..], historyPos, historyCount, cmd);
      SaveToHistory(cmd);
      submitted := submitted + [cmd];
      bufferPos := 0;
      historyIndex := historyCount;
      Established(Enter(s));
    }

    /** The Enter key. */
    method EnterKey()
      requires Valid()
      modifies this, inputBuffer, history
      ensures Valid() && View() == Enter(old(View()))
    {
      if bufferPos > 0 {
        hide Good, Enter;
        TerminateLine();
        GoodMeans(View(), history[..], historyPos, historyCount);
        var cmd := BufferString();
        Submit(cmd);
      } else {
        assert View().line == [];
      }
    }

    /** A character outside an escape sequence that is not Enter. */
    method EditLine(c: byte)
      requires Valid() && escapeState == 0 && c != 0x0A && c != 0x0D
      modifies this, inputBuffer
      ensures Valid() && View() == Next(old(View()), c)
    {
      ghost var s := View();
      NextGood(s, history[..], historyPos, historyCount, c);
      hide Good;
      if c == 0x1B {
        escapeState := 1;
      } else if c == 0x08 {
        if bufferPos > 0 {
          bufferPos := bufferPos - 1;
          assert inputBuffer[..bufferPos] == s.line[..bufferPos];
        }
      } else if bufferPos < 255 && 32 <= c <= 126 {
        inputBuffer[bufferPos] := c;
        bufferPos := bufferPos + 1;
        assert inputBuffer[..bufferPos] == s.line + [c];
      }
    }

    /** shell_process_char. */
    method ProcessChar(c: byte)
      requires Valid()
      modifies this, inputBuffer, history
      ensures Valid() && View() == Next(old(View()), c)
    {
      ghost var s := View();
      GoodMeans(s, history[..], historyPos, historyCount);
      hide Good, Up, Down, Enter;
      if escapeState == 1 {
        NextGood(s, history[..], historyPos, historyCount, c);
        if c == 0x5B { escapeState := 2; } else { escapeState := 0; }
      } else if escapeState == 2 {
        if c == 0x41 { ShowHistoryUp(); } else if c == 0x42 { ShowHistoryDown(); }
        EscapeDone(View(), history[..], historyPos, historyCount);
        escapeState := 0;
      } else if c == 0x0A || c == 0x0D {
        EnterKey();
      } else {
        EditLine(c);
      }
    }

    /** Any stream of characters. */
    method ProcessAll(cs: seq<byte>)
      requires Valid()
      modifies this, inputBuffer, history
      ensures Valid() && View() == Run(old(View()), cs)
    {
      hide Next, Good;
      for i := 0 to |cs|
        invariant Valid() && View() == Run(old(View()), cs[..i])
      {
        assert cs[..i + 1][..i] == cs[..i];
        ProcessChar(cs[i]);
      }
      assert cs[..|cs|] == cs;
    }
  }

  lemma EscapeDone(s: Session, h: seq<seq<byte>>, pos: nat, count: nat)
    requires Good(s, h, pos, count)
    ensures Good(s.(escape := 0), h, pos, count)
  {
  }
}
