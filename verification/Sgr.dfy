/** Select graphic rendition: colours and attributes under reverse video. */
module Sgr {
  import opened Basics
  import opened Screens

  /** The rendition state of the terminal together with the colours the backend writes with.
      `primary` and `background` are colour numbers, None for the default colour. */
  datatype RawPen = RawPen(
    bold: bool, bgBold: bool, reverse: bool,
    primary: Option<nat>, background: Option<nat>,
    fg: u32, bg: u32)

  predicate PenOk(pen: RawPen) {
    && (pen.primary.Some? ==> pen.primary.value < 8)
    && (pen.background.Some? ==> pen.background.value < 8)
  }

  type Pen = pen: RawPen | PenOk(pen) witness RawPen(false, false, false, None, None, 0, 0)

  function SwapPen(pen: Pen): Pen {
    pen.(fg := pen.bg, bg := pen.fg)
  }

  /** Code 0, and the empty parameter list. */
  function Reset(p: Palette): Pen {
    RawPen(false, false, false, None, None, p.defaultFg, TRANSPARENT)
  }

  /** `set_fg`: bright for bold, which is the background's intensity in reverse video. */
  function PutFg(p: Palette, pen: Pen, k: nat): Pen
    requires k < 8
  {
    pen.(fg := if (pen.bold && !pen.reverse) || (pen.bgBold && pen.reverse) then p.bright[k] else p.ansi[k])
  }

  function PutBg(p: Palette, pen: Pen, k: nat): Pen
    requires k < 8
  {
    pen.(bg := if (pen.bold && pen.reverse) || (pen.bgBold && !pen.reverse) then p.bright[k] else p.ansi[k])
  }

  /** The effect of one code other than 38 and 48. */
  function Code(p: Palette, pen: Pen, code: u32): Pen {
    if code == 0 then Reset(p)
    else if code == 1 then
      var t := pen.(bold := true);
      if pen.primary.Some? then
        if !pen.reverse then t.(fg := p.bright[pen.primary.value]) else t.(bg := p.bright[pen.primary.value])
      else
        if !pen.reverse then t.(fg := p.defaultFgBright) else t.(bg := p.defaultBgBright)
    else if code == 5 then
      var t := pen.(bgBold := true);
      if pen.background.Some? then
        if !pen.reverse then t.(bg := p.bright[pen.background.value]) else t.(fg := p.bright[pen.background.value])
      else
        if !pen.reverse then t.(bg := p.defaultBgBright) else t.(fg := p.defaultFgBright)
    else if code == 22 then
      var t := pen.(bold := false);
      if pen.primary.Some? then
        if !pen.reverse then t.(fg := p.ansi[pen.primary.value]) else t.(bg := p.ansi[pen.primary.value])
      else
        if !pen.reverse then t.(fg := p.defaultFg) else t.(bg := TRANSPARENT)
    else if code == 25 then
      var t := pen.(bgBold := false);
      if pen.background.Some? then
        if !pen.reverse then t.(bg := p.ansi[pen.background.value]) else t.(fg := p.ansi[pen.background.value])
      else
        if !pen.reverse then t.(bg := TRANSPARENT) else t.(fg := p.defaultFg)
    else if 30 <= code <= 37 then
      var t := pen.(primary := Some(code - 30));
      if pen.reverse then PutBg(p, t, code - 30) else PutFg(p, t, code - 30)
    else if 40 <= code <= 47 then
      var t := pen.(background := Some(code - 40));
      if pen.reverse then PutFg(p, t, code - 40) else PutBg(p, t, code - 40)
    else if 90 <= code <= 97 then
      var t := pen.(primary := Some(code - 90));
      if pen.reverse then t.(bg := p.bright[code - 90]) else t.(fg := p.bright[code - 90])
    else if 100 <= code <= 107 then
      var t := pen.(background := Some(code - 100));
      if pen.reverse then t.(fg := p.bright[code - 100]) else t.(bg := p.bright[code - 100])
    else if code == 39 then
      var colour := if pen.bold then p.defaultFgBright else p.defaultFg;
      var t := pen.(primary := None);
      if pen.reverse then SwapPen(SwapPen(t).(fg := colour)) else t.(fg := colour)
    else if code == 49 then
      var colour := if pen.bgBold then p.defaultBgBright else TRANSPARENT;
      var t := pen.(background := None);
      if pen.reverse then SwapPen(SwapPen(t).(bg := colour)) else t.(bg := colour)
    else if code == 7 then
      if !pen.reverse then SwapPen(pen.(reverse := true)) else pen
    else if code == 27 then
      if pen.reverse then SwapPen(pen.(reverse := false)) else pen
    else pen
  }

  /** The 24-bit colour of code 38;2 or 48;2, shifted and combined in 32 bits. */
  function Rgb(r: u32, g: u32, b: u32): u32 {
    var red, green := ToU32(r * 0x1_0000), ToU32(g * 0x100);
    MachinePowers();
    OrBelow(red, green, 32);
    OrBelow(BitOr(red, green), b, 32);
    BitOr(BitOr(red, green), b)
  }

  /** Colours 16 to 255 of the 256-colour palette. */
  type ColourTable = t: seq<u32> | |t| == 240 witness seq(240, _ => 0)

  /** Code 38;5 or 48;5. Indices past 255 are outside the source's table. */
  function Indexed(p: Palette, table: ColourTable, pen: Pen, isFg: bool, col: u32): Pen {
    var colour := if col < 8 then p.ansi[col] else if col < 16 then p.bright[col - 8]
                  else if col < 256 then table[col - 16] else 0;
    if isFg then pen.(fg := colour) else pen.(bg := colour)
  }

  /** The codes from position `i` on. */
  function Codes(p: Palette, table: ColourTable, pen: Pen, codes: seq<u32>, i: nat): Pen
    decreases |codes| - i
  {
    if i >= |codes| then pen
    else if codes[i] == 38 || codes[i] == 48 then
      var isFg := codes[i] == 38;
      if i + 1 >= |codes| then pen
      else if codes[i + 1] == 2 then
        if i + 4 >= |codes| then pen
        else
          var colour := Rgb(codes[i + 2], codes[i + 3], codes[i + 4]);
          Codes(p, table, if isFg then pen.(fg := colour) else pen.(bg := colour), codes, i + 5)
      else if codes[i + 1] == 5 then
        if i + 2 >= |codes| then pen
        else Codes(p, table, Indexed(p, table, pen, isFg, codes[i + 2]), codes, i + 3)
      else Codes(p, table, pen, codes, i + 2)
    else Codes(p, table, Code(p, pen, codes[i]), codes, i + 1)
  }

  function SelectRendition(p: Palette, table: ColourTable, pen: Pen, codes: seq<u32>): Pen {
    if |codes| == 0 then Reset(p) else Codes(p, table, pen, codes, 0)
  }

  // ---- Agreement of the written colours with the rendition state

  function ForegroundOf(p: Palette, pen: Pen): u32 {
    match pen.primary
    case Some(k) => if pen.bold then p.bright[k] else p.ansi[k]
    case None => if pen.bold then p.defaultFgBright else p.defaultFg
  }

  function BackgroundOf(p: Palette, pen: Pen): u32 {
    match pen.background
    case Some(k) => if pen.bgBold then p.bright[k] else p.ansi[k]
    case None => if pen.bgBold then p.defaultBgBright else TRANSPARENT
  }

  /** The colours in use are those of the rendition state, exchanged in reverse video. */
  predicate Agrees(p: Palette, pen: Pen) {
    if pen.reverse then pen.fg == BackgroundOf(p, pen) && pen.bg == ForegroundOf(p, pen)
    else pen.fg == ForegroundOf(p, pen) && pen.bg == BackgroundOf(p, pen)
  }

  /** Codes that set an attribute or one of the eight standard or the default colours. */
  predicate Standard(code: u32) {
    code in {0, 1, 5, 7, 22, 25, 27, 39, 49} || 30 <= code <= 37 || 40 <= code <= 47
  }

  /** In reverse video the intensity codes write a default colour of the wrong plane: 1 and 22 the default
      background for the default foreground, 5 and 25 the other way round. */
  predicate WrongPlane(pen: Pen, code: u32) {
    pen.reverse && (
      ((code == 1 || code == 22) && pen.primary.None?) ||
      ((code == 5 || code == 25) && pen.background.None?))
  }

  /** Colours for which that makes no difference. */
  predicate SameDefault(p: Palette, code: u32) {
    match code
    case 1 => p.defaultBgBright == p.defaultFgBright
    case 5 => p.defaultBgBright == p.defaultFgBright
    case 22 => p.defaultFg == TRANSPARENT
    case 25 => p.defaultFg == TRANSPARENT
    case _ => true
  }

  /** A standard code keeps colours and state in agreement exactly when it does not write a default
      colour of the wrong plane. */
  lemma CodeAgreesExactly(p: Palette, pen: Pen, code: u32)
    requires Agrees(p, pen) && Standard(code)
    ensures Agrees(p, Code(p, pen, code)) <==> !WrongPlane(pen, code) || SameDefault(p, code)
  {
  }

  predicate AllStandard(codes: seq<u32>) {
    forall i :: 0 <= i < |codes| ==> Standard(codes[i])
  }

  /** No code from position `i` on finds the rendition in a state where it writes the wrong plane. */
  predicate SafeRun(p: Palette, pen: Pen, codes: seq<u32>, i: nat)
    decreases |codes| - i
  {
    i < |codes| ==>
      (!WrongPlane(pen, codes[i]) || SameDefault(p, codes[i])) && SafeRun(p, Code(p, pen, codes[i]), codes, i + 1)
  }

  /** Colours and state agree before the run and after each of its codes. */
  predicate AgreesThroughout(p: Palette, pen: Pen, codes: seq<u32>, i: nat)
    decreases |codes| - i
  {
    Agrees(p, pen) && (i < |codes| ==> AgreesThroughout(p, Code(p, pen, codes[i]), codes, i + 1))
  }

  lemma {:induction false} RunAgreesExactly(p: Palette, table: ColourTable, pen: Pen, codes: seq<u32>, i: nat)
    requires Agrees(p, pen) && AllStandard(codes)
    ensures AgreesThroughout(p, pen, codes, i) <==> SafeRun(p, pen, codes, i)
    ensures SafeRun(p, pen, codes, i) ==> Agrees(p, Codes(p, table, pen, codes, i))
    decreases |codes| - i
  {
    if i < |codes| {
      CodeAgreesExactly(p, pen, codes[i]);
      if Agrees(p, Code(p, pen, codes[i])) {
        RunAgreesExactly(p, table, Code(p, pen, codes[i]), codes, i + 1);
      }
    }
  }

  /** Any number of SGR control sequences one after the other. */
  function Selections(p: Palette, table: ColourTable, pen: Pen, runs: seq<seq<u32>>): Pen {
    if |runs| == 0 then pen
    else SelectRendition(p, table, Selections(p, table, pen, runs[..|runs| - 1]), runs[|runs| - 1])
  }

  predicate SafeSelections(p: Palette, table: ColourTable, pen: Pen, runs: seq<seq<u32>>) {
    |runs| == 0 ||
    (var before := Selections(p, table, pen, runs[..|runs| - 1]);
     && SafeSelections(p, table, pen, runs[..|runs| - 1])
     && AllStandard(runs[|runs| - 1])
     && SafeRun(p, before, runs[|runs| - 1], 0))
  }

  lemma {:induction false} SelectionsAgree(p: Palette, table: ColourTable, pen: Pen, runs: seq<seq<u32>>)
    requires Agrees(p, pen) && SafeSelections(p, table, pen, runs)
    ensures Agrees(p, Selections(p, table, pen, runs))
  {
    if |runs| > 0 {
      SelectionsAgree(p, table, pen, runs[..|runs| - 1]);
      RunAgreesExactly(p, table, Selections(p, table, pen, runs[..|runs| - 1]), runs[|runs| - 1], 0);
    }
  }

  /** With the colours of the source, bold in reverse video turns the background grey. */
  lemma ReverseThenBoldDisagrees(p: Palette, table: ColourTable)
    requires p.defaultFgBright == 0x00ff_ffff && p.defaultBgBright == 0x0055_5555
    ensures !Agrees(p, SelectRendition(p, table, Reset(p), [7, 1]))
  {
    var codes: seq<u32> := [7, 1];
    assert Codes(p, table, Reset(p), codes, 0) == Codes(p, table, Code(p, Reset(p), 7), codes, 1);
    assert Codes(p, table, Code(p, Reset(p), 7), codes, 1) == Code(p, Code(p, Reset(p), 7), 1);
  }
}
