/** A terminal that has just been initialised, some bytes for it, and the screens that they lead to. */
module Setups {
  import opened Basics
  import opened Screens
  import opened EditingLaws
  import opened RunOn
  import opened Terminals
  import opened ParserLaws
  import opened ControlLaws
  import opened TextLaws

  // ---- Text and what shows it

  predicate Ascii(s: string) {
    forall i :: 0 <= i < |s| ==> ' ' <= s[i] <= '~'
  }

  function Text(s: string): (r: seq<byte>)
    requires Ascii(s)
    ensures Printable(r)
  {
    seq(|s|, i requires 0 <= i < |s| => s[i] as int)
  }

  /** A row of characters in the default colours. */
  function Row(cfg: Config, s: string): (r: seq<Cell>)
    requires Ascii(s)
    ensures |r| == |s|
  {
    seq(|s|, i requires 0 <= i < |s| => Cell(s[i] as int, cfg.palette.defaultFg, TRANSPARENT))
  }

  /** The terminal after `flanterm_fb_init`. */
  function Start(cfg: Config, rows: nat, cols: nat): Term
    requires 1 <= rows < 10 && 1 <= cols < 10
  {
    Reinit(ZeroedTerm(InitialScreen(rows, cols, cfg.palette.defaultFg)))
  }

  /** Its screen with other contents, cursor and bottom margin. */
  function Display(cfg: Config, lines: seq<seq<Cell>>, x: nat, y: nat, bottom: nat): (s: Screen)
    requires 1 <= |lines| < 10 && 1 <= |lines[0]| < 10 && 1 <= bottom <= |lines|
    requires forall r :: 0 <= r < |lines| ==> |lines[r]| == |lines[0]|
  {
    RawScreen(|lines|, |lines[0]|, lines, x, y, cfg.palette.defaultFg, TRANSPARENT, 0, 0, 0, 0, 0, bottom, true, true)
  }

  lemma Started(cfg: Config, rows: nat, cols: nat)
    requires 1 <= rows < 10 && 1 <= cols < 10
    ensures Plain(Start(cfg, rows, cols)) && !Start(cfg, rows, cols).insertMode
    ensures Start(cfg, rows, cols).screen == InitialScreen(rows, cols, cfg.palette.defaultFg)
  {
  }

  /** One row of three columns filled with `ABC`: a wrap is pending. */
  ghost function Filled(cfg: Config): Term {
    PutAll(cfg, Start(cfg, 1, 3), Text("ABC"))
  }

  lemma FilledScreen(cfg: Config)
    ensures var t := Filled(cfg);
      Plain(t) && !t.insertMode && t.screen == Display(cfg, [Row(cfg, "ABC")], 3, 0, 1)
  {
    hide PutAll, TermOk;
    Started(cfg, 1, 3);
    TextWritten(cfg, Start(cfg, 1, 3), Text("ABC"));
    var s := InitialScreen(1, 3, cfg.palette.defaultFg);
    assert Spelled(s, 0, 0, Text("ABC")) == Row(cfg, "ABC");
    assert s.lines[0 := Row(cfg, "ABC")] == [Row(cfg, "ABC")];
  }

  /** The same with the cursor in the first column. */
  ghost function FilledHome(cfg: Config): Term {
    PutAll(cfg, Start(cfg, 1, 3), Text("ABC") + Csi([1, 1], 0x48))
  }

  lemma FilledHomeScreen(cfg: Config)
    ensures var t := FilledHome(cfg);
      Plain(t) && !t.insertMode && t.screen == Display(cfg, [Row(cfg, "ABC")], 0, 0, 1)
  {
    hide PutAll, TermOk, Csi;
    PutAllConcat(cfg, Start(cfg, 1, 3), Text("ABC"), Csi([1, 1], 0x48));
    FilledScreen(cfg);
    PositionSequence(cfg, Filled(cfg), 1, 1);
    PlainSequence(cfg, Filled(cfg), [1, 1], 0x48);
  }

  /** Bytes that leave two rows `AB` and `C `, with a wrap pending in the first. */
  function SquareBytes(): seq<byte> {
    Csi([2, 1], 0x48) + Text("C") + Csi([1, 1], 0x48) + Text("AB")
  }

  ghost function Square(cfg: Config): Term {
    PutAll(cfg, Start(cfg, 2, 2), SquareBytes())
  }

  lemma SquareScreen(cfg: Config)
    ensures var t := Square(cfg);
      Plain(t) && !t.insertMode && t.screen == Display(cfg, [Row(cfg, "AB"), Row(cfg, "C ")], 2, 0, 2)
  {
    hide PutAll, TermOk, Csi;
    var t := Start(cfg, 2, 2);
    Started(cfg, 2, 2);
    PositionSequence(cfg, t, 2, 1);
    PlainSequence(cfg, t, [2, 1], 0x48);
    var u := PutAll(cfg, t, Csi([2, 1], 0x48));
    TextWritten(cfg, u, Text("C"));
    assert Spelled(u.screen, 1, 0, Text("C")) == Row(cfg, "C ");
    PutAllConcat(cfg, t, Csi([2, 1], 0x48), Text("C"));
    var v := PutAll(cfg, u, Text("C"));
    PositionSequence(cfg, v, 1, 1);
    PlainSequence(cfg, v, [1, 1], 0x48);
    PutAllConcat(cfg, t, Csi([2, 1], 0x48) + Text("C"), Csi([1, 1], 0x48));
    var w := PutAll(cfg, v, Csi([1, 1], 0x48));
    TextWritten(cfg, w, Text("AB"));
    assert Spelled(w.screen, 0, 0, Text("AB")) == Row(cfg, "AB");
    PutAllConcat(cfg, t, Csi([2, 1], 0x48) + Text("C") + Csi([1, 1], 0x48), Text("AB"));
  }

  /** Bytes that make the first two of three rows the scroll region and leave `A` in the third. */
  function BelowBytes(): seq<byte> {
    Csi([1, 2], 0x72) + Csi([3, 1], 0x48) + Text("A")
  }

  ghost function Below(cfg: Config): Term {
    PutAll(cfg, Start(cfg, 3, 4), BelowBytes())
  }

  lemma BelowScreen(cfg: Config)
    ensures var t := Below(cfg);
      Plain(t) && !t.insertMode
      && t.screen == Display(cfg, [Row(cfg, "    "), Row(cfg, "    "), Row(cfg, "A   ")], 1, 2, 2)
  {
    hide PutAll, TermOk, Csi;
    var t := Start(cfg, 3, 4);
    Started(cfg, 3, 4);
    MarginsSequence(cfg, t, 1, 2);
    PlainSequence(cfg, t, [1, 2], 0x72);
    var u := PutAll(cfg, t, Csi([1, 2], 0x72));
    PositionSequence(cfg, u, 3, 1);
    PlainSequence(cfg, u, [3, 1], 0x48);
    PutAllConcat(cfg, t, Csi([1, 2], 0x72), Csi([3, 1], 0x48));
    var v := PutAll(cfg, u, Csi([3, 1], 0x48));
    TextWritten(cfg, v, Text("A"));
    assert Spelled(v.screen, 2, 0, Text("A")) == Row(cfg, "A   ");
    assert v.screen.lines[0] == Row(cfg, "    ") && v.screen.lines[1] == Row(cfg, "    ");
    PutAllConcat(cfg, t, Csi([1, 2], 0x72) + Csi([3, 1], 0x48), Text("A"));
  }

  /** Blanks on blanks change nothing. */
  lemma ToEndRow(s: Screen, r: nat)
    requires r < s.rows && forall i :: 0 <= i < s.cols && BlankedToEnd(s)(r, i) ==> s.lines[r][i] == Blank(s)
    ensures Replaced(s.lines, BlankedToEnd(s), Blank(s))[r] == s.lines[r]
  {
  }

  lemma FromStartRow(s: Screen, x: nat, y: nat, r: nat)
    requires r < s.rows && forall i :: 0 <= i < s.cols && BlankedFromStart(s, x, y)(r, i) ==> s.lines[r][i] == Blank(s)
    ensures Replaced(s.lines, BlankedFromStart(s, x, y), Blank(s))[r] == s.lines[r]
  {
  }
}
