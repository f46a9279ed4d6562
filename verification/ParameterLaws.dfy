/** Parameters left out of control sequences, functions under two names, and modes. */
module ParameterLaws {
  import opened Basics
  import opened Screens
  import opened EditingLaws
  import opened Terminals
  import opened SequenceLaws
  import opened ControlLaws

  // ---- Parameters left out

  /** Left out, the parameter of erasing is zero. */
  lemma EraseDefault(cfg: Config, t: Term, c: byte)
    requires Idle(t.parser) && c in {0x4a, 0x4b}   // J K
    ensures PutAll(cfg, t, Csi([], c)).screen == PutAll(cfg, t, Csi([0], c)).screen
  {
    hide PutAll, Parameters, EditScreen, WithParser;
    ControlSequenceRoundTrip(cfg, t, [], c);
    EditFunction(cfg, WithParser(t, Parsed(t.parser, [], c)), c);
    EditSequence(cfg, t, 0, c);
  }

  /** That of the other editing functions is one. */
  lemma EditDefault(cfg: Config, t: Term, c: byte)
    requires Idle(t.parser) && c in {0x40, 0x50, 0x58, 0x4c, 0x4d}   // @ P X L M
    ensures PutAll(cfg, t, Csi([], c)).screen == PutAll(cfg, t, Csi([1], c)).screen
  {
    hide PutAll, Parameters, EditScreen, WithParser;
    ControlSequenceRoundTrip(cfg, t, [], c);
    EditFunction(cfg, WithParser(t, Parsed(t.parser, [], c)), c);
    EditSequence(cfg, t, 1, c);
  }

  /** A cursor motion moves by its parameters as they were read, and changes nothing else. */
  lemma MotionRead(cfg: Config, t: Term, vs: seq<u32>, c: byte)
    requires Idle(t.parser) && IsMotion(c)
    ensures PutAll(cfg, t, Csi(vs, c)).screen ==
      MoveCursor(Quiet(t.screen), c, ReadValues(vs, 1), GetX(t.screen), GetY(t.screen)).(scrollEnabled := true)
  {
    hide PutAll, Parameters, WithParser, MoveCursor, EditScreen;
    ControlSequenceRoundTrip(cfg, t, vs, c);
    MoveFunction(cfg, WithParser(t, Parsed(t.parser, vs, c)), c);
  }

  /** So is the parameter of every motion but the two to a position. */
  lemma MotionDefault(cfg: Config, t: Term, c: byte)
    requires Idle(t.parser)
    requires c in {0x41, 0x42, 0x43, 0x44, 0x45, 0x46, 0x47, 0x60, 0x61, 0x64, 0x65}   // A B C D E F G ` a d e
    ensures PutAll(cfg, t, Csi([], c)).screen == PutAll(cfg, t, Csi([1], c)).screen
  {
    hide PutAll, Parameters, MoveCursor;
    MotionRead(cfg, t, [], c);
    MotionRead(cfg, t, [1], c);
    assert ReadValues([], 1) == ReadValues([1], 1);
  }

  /** `CSI H` goes home, and `CSI n H` to the first column of row n, or of the nearest one. */
  lemma PositionDefault(cfg: Config, t: Term, n: u32)
    requires Idle(t.parser)
    ensures var s := t.screen;
      && PutAll(cfg, t, Csi([], 0x48)).screen == s.(cursorX := 0, cursorY := 0)
      && PutAll(cfg, t, Csi([n], 0x48)).screen == s.(cursorX := 0, cursorY := Within(n, s.rows) - 1)
  {
    hide PutAll, Parameters, MoveCursor;
    MotionRead(cfg, t, [], 0x48);
    MotionRead(cfg, t, [n], 0x48);
    MotionRead(cfg, t, [1, 1], 0x48);
    MotionRead(cfg, t, [n, 1], 0x48);
    assert ReadValues([], 1) == ReadValues([1, 1], 1) && ReadValues([n], 1) == ReadValues([n, 1], 1);
    PositionSequence(cfg, t, 1, 1);
    PositionSequence(cfg, t, n, 1);
  }

  /** Past the last parameter that a function looks at, others do not matter. */
  lemma ExtraParameters(cfg: Config, t: Term, n: u32, more: seq<u32>, c: byte)
    requires Idle(t.parser) && c in {0x4d, 0x4c, 0x4a, 0x40, 0x50, 0x58, 0x4b}
    ensures PutAll(cfg, t, Csi([n] + more, c)).screen == PutAll(cfg, t, Csi([n], c)).screen
  {
    hide PutAll, Parameters, EditScreen, WithParser;
    ControlSequenceRoundTrip(cfg, t, [n] + more, c);
    EditFunction(cfg, WithParser(t, Parsed(t.parser, [n] + more, c)), c);
    assert ReadValues([n] + more, DefaultValue(c))[0] == n;
    EditSequence(cfg, t, n, c);
  }

  // ---- Motions under two names

  /** `f` is `H`, a backquote is `G`, `a` is `C` and `e` is `B`, whatever the parameters;
    `F` and `E` are `A` and `B` and
      go to the first column too. */
  lemma OtherNames(cfg: Config, t: Term, vs: seq<u32>)
    requires Idle(t.parser)
    ensures PutAll(cfg, t, Csi(vs, 0x66)).screen == PutAll(cfg, t, Csi(vs, 0x48)).screen
    ensures PutAll(cfg, t, Csi(vs, 0x60)).screen == PutAll(cfg, t, Csi(vs, 0x47)).screen
    ensures PutAll(cfg, t, Csi(vs, 0x61)).screen == PutAll(cfg, t, Csi(vs, 0x43)).screen
    ensures PutAll(cfg, t, Csi(vs, 0x65)).screen == PutAll(cfg, t, Csi(vs, 0x42)).screen
    ensures PutAll(cfg, t, Csi(vs, 0x46)).screen == PutAll(cfg, t, Csi(vs, 0x41)).screen.(cursorX := 0)
    ensures PutAll(cfg, t, Csi(vs, 0x45)).screen == PutAll(cfg, t, Csi(vs, 0x42)).screen.(cursorX := 0)
  {
    hide PutAll, Csi, MoveCursor;
    forall c | c in {0x66, 0x48, 0x60, 0x47, 0x61, 0x43, 0x65, 0x42, 0x46, 0x41, 0x45}
      ensures PutAll(cfg, t, Csi(vs, c)).screen ==
        MoveCursor(Quiet(t.screen), c, ReadValues(vs, 1), GetX(t.screen), GetY(t.screen)).(scrollEnabled := true)
    {
      MotionRead(cfg, t, vs, c);
    }
    NamesAlike(Quiet(t.screen), ReadValues(vs, 1), GetX(t.screen), GetY(t.screen));
  }

  lemma NamesAlike(s: Screen, values: seq<u32>, x: nat, y: nat)
    requires |values| == MAX_VALUES && x < s.cols && y < s.rows
    ensures MoveCursor(s, 0x66, values, x, y) == MoveCursor(s, 0x48, values, x, y)
    ensures MoveCursor(s, 0x60, values, x, y) == MoveCursor(s, 0x47, values, x, y)
    ensures MoveCursor(s, 0x61, values, x, y) == MoveCursor(s, 0x43, values, x, y)
    ensures MoveCursor(s, 0x65, values, x, y) == MoveCursor(s, 0x42, values, x, y)
    ensures MoveCursor(s, 0x46, values, x, y) == MoveCursor(s, 0x41, values, x, y).(cursorX := 0)
    ensures MoveCursor(s, 0x45, values, x, y) == MoveCursor(s, 0x42, values, x, y).(cursorX := 0)
  {
    hide RowUp, RowDown;
  }

  // ---- What is left of the parameters

  /** The parameters that a screen function leaves behind. */
  lemma ParametersLeft(cfg: Config, t: Term, vs: seq<u32>, c: byte)
    requires Idle(t.parser) && IsFinal(c) && c !in {0x6d, 0x73, 0x75, 0x6c, 0x68}
    ensures PutAll(cfg, t, Csi(vs, c)).parser.values ==
      ClampedValues(t.screen, c, ReadValues(vs, DefaultValue(c)), GetX(t.screen), GetY(t.screen))
  {
    hide PutAll, Parameters, WithPen, WithScreen, SaveCursorTerm, Mode, ClampedValues, TermOk;
    ControlSequenceRoundTrip(cfg, t, vs, c);
    var u := WithParser(t, Parsed(t.parser, vs, c));
    assert Control(cfg, u, c) == ScreenFunction(u, c);
  }

  /** A motion leaves how far it went, or the zero-based position it went to; margins leave one for zero; all other
      functions leave the parameters as they were. */
  lemma ClampedParameters(s: Screen, c: byte, values: seq<u32>, x: nat, y: nat)
    requires x < s.cols && y < s.rows && |values| == MAX_VALUES
    ensures var v, w, left := values[0], values[1], ClampedValues(s, c, values, x, y);
      && (forall i :: 2 <= i < MAX_VALUES ==> left[i] == values[i])
      && (c in {0x41, 0x46} ==> left[0] == Min(v, y) && left[1] == w)
      && (c in {0x42, 0x45, 0x65} ==> left[0] == Min(v, s.rows - 1 - y) && left[1] == w)
      && (c in {0x43, 0x61} ==> left[0] == Min(v, s.cols - 1 - x) && left[1] == w)
      && (c == 0x44 ==> left[0] == Min(v, x) && left[1] == w)
      && (c == 0x64 ==> (v >= 1 ==> left[0] == Within(v, s.rows) - 1) && left[1] == w)
      && (c in {0x47, 0x60} ==> (v >= 1 ==> left[0] == Within(v, s.cols) - 1) && left[1] == w)
      && (c in {0x48, 0x66} ==> left[0] == Within(v, s.rows) - 1 && left[1] == Within(w, s.cols) - 1)
      && (c == 0x72 ==> left[0] == Max(v, 1) && left[1] == Max(w, 1))
      && (c in {0x40, 0x4a, 0x4b, 0x4c, 0x4d, 0x50, 0x58} ==> left == values)
  {
  }

  // ---- Margins

  /** Without a second parameter the region ends with the screen; without any it is the screen; a third one and later
      ones do not matter. */
  lemma MarginDefaults(cfg: Config, t: Term, vs: seq<u32>)
    requires Idle(t.parser)
    ensures PutAll(cfg, t, Csi(vs, 0x72)).screen ==
      WithRegion(t.screen, if |vs| >= 1 then Max(vs[0], 1) else 1, if |vs| >= 2 then Max(vs[1], 1) else t.screen.rows)
  {
    hide PutAll, Parameters, WithParser, WithScreen, Clamped, SetMargins;
    ControlSequenceRoundTrip(cfg, t, vs, 0x72);
    var u := WithParser(t, Parsed(t.parser, vs, 0x72));
    var values := ReadValues(vs, 1);
    assert |vs| >= 1 ==> values[0] == vs[0];
    assert |vs| >= 2 ==> values[1] == vs[1];
    MarginsFunction(cfg, u);
    MarginsRead(Quiet(t.screen), values, MinValues(|vs|));
  }

  lemma MarginsRead(s: Screen, values: seq<u32>, count: nat)
    requires |values| == MAX_VALUES
    ensures SetMargins(s, values, count) ==
      WithRegion(s, if count >= 1 then Max(values[0], 1) else 1, if count >= 2 then Max(values[1], 1) else s.rows)
  {
  }

  // ---- Cursor positions saved

  /** `CSI s` saves where the cursor is reported to be. */
  lemma SaveSequence(cfg: Config, t: Term, vs: seq<u32>)
    requires Idle(t.parser)
    ensures var r := PutAll(cfg, t, Csi(vs, 0x73));
      r == t.(savedX := GetX(t.screen), savedY := GetY(t.screen), parser := r.parser) && Idle(r.parser)
  {
    hide PutAll, Parameters, WithScreen, WithPen, Mode, ScreenFunction;
    ControlSequenceRoundTrip(cfg, t, vs, 0x73);
  }

  /** `CSI u` takes it there. */
  lemma RecallSequence(cfg: Config, t: Term, vs: seq<u32>)
    requires Idle(t.parser)
    ensures var r := PutAll(cfg, t, Csi(vs, 0x75));
      r == t.(screen := t.screen.(cursorX := t.savedX, cursorY := t.savedY), parser := r.parser) && Idle(r.parser)
  {
    hide PutAll, Parameters, WithPen, Mode, ScreenFunction;
    ControlSequenceRoundTrip(cfg, t, vs, 0x75);
    CursorReturns(t.screen, t.savedX, t.savedY);
  }

  // ---- Modes

  /** `CSI 4 h` and `CSI 4 l` switch insert mode; other modes, and none, do nothing here. */
  lemma ModeSequence(cfg: Config, t: Term, vs: seq<u32>, c: byte)
    requires Idle(t.parser) && (c == 0x68 || c == 0x6c)
    ensures var r := PutAll(cfg, t, Csi(vs, c));
      && Idle(r.parser)
      && r == t.(insertMode := if |vs| >= 1 && vs[0] == 4 then c == 0x68 else t.insertMode, parser := r.parser)
  {
    hide PutAll, Parameters, WithPen, WithScreen, SaveCursorTerm, ScreenFunction;
    ControlSequenceRoundTrip(cfg, t, vs, c);
    var p := Parsed(t.parser, vs, c);
    assert |vs| >= 1 ==> p.values[0] == vs[0];
    assert Control(cfg, WithParser(t, p), c) == Mode(WithParser(t, p), c);
  }

  /** Control functions that the terminal carries out. */
  predicate Assigned(c: byte) {
    c in {0x40, 0x41, 0x42, 0x43, 0x44, 0x45, 0x46, 0x47, 0x48, 0x4a, 0x4b, 0x4c, 0x4d, 0x50, 0x58, 0x60, 0x61, 0x64,
          0x65, 0x66, 0x68, 0x6c, 0x6d, 0x72, 0x73, 0x75}
  }

  /** The others do nothing here. */
  lemma UnassignedSequence(cfg: Config, t: Term, vs: seq<u32>, c: byte)
    requires Idle(t.parser) && IsFinal(c) && !Assigned(c)
    ensures var r := PutAll(cfg, t, Csi(vs, c));
      r == t.(parser := r.parser) && Idle(r.parser)
  {
    hide PutAll, Parameters, WithPen, SaveCursorTerm, Mode, SetMargins, MoveCursor;
    ControlSequenceRoundTrip(cfg, t, vs, c);
    var u := WithParser(t, Parsed(t.parser, vs, c));
    assert Control(cfg, u, c) == ScreenFunction(u, c);
  }
}
