/** Which rendition and which colours each code of select graphic rendition leaves, from the bytes to the pen. */
module RenditionLaws {
  import opened Basics
  import opened Screens
  import opened Sgr
  import opened Terminals
  import opened SequenceLaws
  import opened ControlLaws

  /** The colour of text is now `colour`: in reverse video that is the background written. */
  predicate TextBecomes(pen: Pen, r: Pen, colour: u32) {
    if pen.reverse then r.bg == colour && r.fg == pen.fg else r.fg == colour && r.bg == pen.bg
  }

  /** The colour behind text is. */
  predicate BackBecomes(pen: Pen, r: Pen, colour: u32) {
    if pen.reverse then r.fg == colour && r.bg == pen.bg else r.bg == colour && r.fg == pen.fg
  }

  lemma OneCode(p: Palette, table: ColourTable, pen: Pen, code: u32)
    requires code != 38 && code != 48
    ensures SelectRendition(p, table, pen, [code]) == Code(p, pen, code)
  {
    hide Code;
    assert Codes(p, table, Code(p, pen, code), [code], 1) == Code(p, pen, code);
  }

  /** 0 and the empty list: everything off, the default colours. */
  lemma ResetCode(p: Palette, table: ColourTable, pen: Pen)
    ensures SelectRendition(p, table, pen, [0]) == SelectRendition(p, table, pen, [])
    ensures SelectRendition(p, table, pen, []) == RawPen(false, false, false, None, None, p.defaultFg, 0xffff_ffff)
  {
    OneCode(p, table, pen, 0);
  }

  /** 30 to 37 and 90 to 97: the text colour by its number, bright for bold text or for the second eight. */
  lemma TextColour(p: Palette, table: ColourTable, pen: Pen, k: nat)
    requires k < 8
    ensures var r := SelectRendition(p, table, pen, [30 + k]);
      && r == pen.(primary := Some(k), fg := r.fg, bg := r.bg)
      && TextBecomes(pen, r, if pen.bold then p.bright[k] else p.ansi[k])
    ensures var r := SelectRendition(p, table, pen, [90 + k]);
      && r == pen.(primary := Some(k), fg := r.fg, bg := r.bg)
      && TextBecomes(pen, r, p.bright[k])
  {
    OneCode(p, table, pen, 30 + k);
    OneCode(p, table, pen, 90 + k);
  }

  /** 40 to 47 and 100 to 107: the colour behind text. */
  lemma BackColour(p: Palette, table: ColourTable, pen: Pen, k: nat)
    requires k < 8
    ensures var r := SelectRendition(p, table, pen, [40 + k]);
      && r == pen.(background := Some(k), fg := r.fg, bg := r.bg)
      && BackBecomes(pen, r, if pen.bgBold then p.bright[k] else p.ansi[k])
    ensures var r := SelectRendition(p, table, pen, [100 + k]);
      && r == pen.(background := Some(k), fg := r.fg, bg := r.bg)
      && BackBecomes(pen, r, p.bright[k])
  {
    OneCode(p, table, pen, 40 + k);
    OneCode(p, table, pen, 100 + k);
  }

  /** 39 and 49: the default colours, bright for bold. */
  lemma DefaultColour(p: Palette, table: ColourTable, pen: Pen)
    ensures var r := SelectRendition(p, table, pen, [39]);
      && r == pen.(primary := None, fg := r.fg, bg := r.bg)
      && TextBecomes(pen, r, if pen.bold then p.defaultFgBright else p.defaultFg)
    ensures var r := SelectRendition(p, table, pen, [49]);
      && r == pen.(background := None, fg := r.fg, bg := r.bg)
      && BackBecomes(pen, r, if pen.bgBold then p.defaultBgBright else 0xffff_ffff)
  {
    OneCode(p, table, pen, 39);
    OneCode(p, table, pen, 49);
  }

  /** 1 and 22 switch bold, and with it the text colour, where a default colour in reverse video is the one of the
      wrong plane. */
  lemma BoldCode(p: Palette, table: ColourTable, pen: Pen)
    ensures var r := SelectRendition(p, table, pen, [1]);
      && r == pen.(bold := true, fg := r.fg, bg := r.bg)
      && TextBecomes(pen, r,
        match pen.primary
        case Some(k) => p.bright[k]
        case None => if pen.reverse then p.defaultBgBright else p.defaultFgBright)
    ensures var r := SelectRendition(p, table, pen, [22]);
      && r == pen.(bold := false, fg := r.fg, bg := r.bg)
      && TextBecomes(pen, r,
        match pen.primary
        case Some(k) => p.ansi[k]
        case None => if pen.reverse then 0xffff_ffff else p.defaultFg)
  {
    OneCode(p, table, pen, 1);
    OneCode(p, table, pen, 22);
  }

  /** 5 and 25 do the same for the colour behind text. */
  lemma BlinkCode(p: Palette, table: ColourTable, pen: Pen)
    ensures var r := SelectRendition(p, table, pen, [5]);
      && r == pen.(bgBold := true, fg := r.fg, bg := r.bg)
      && BackBecomes(pen, r,
        match pen.background
        case Some(k) => p.bright[k]
        case None => if pen.reverse then p.defaultFgBright else p.defaultBgBright)
    ensures var r := SelectRendition(p, table, pen, [25]);
      && r == pen.(bgBold := false, fg := r.fg, bg := r.bg)
      && BackBecomes(pen, r,
        match pen.background
        case Some(k) => p.ansi[k]
        case None => if pen.reverse then p.defaultFg else 0xffff_ffff)
  {
    OneCode(p, table, pen, 5);
    OneCode(p, table, pen, 25);
  }

  /** 7 and 27 switch reverse video, exchanging the colours if it was not so already. */
  lemma ReverseCode(p: Palette, table: ColourTable, pen: Pen)
    ensures SelectRendition(p, table, pen, [7]) ==
      if pen.reverse then pen else pen.(reverse := true, fg := pen.bg, bg := pen.fg)
    ensures SelectRendition(p, table, pen, [27]) ==
      if pen.reverse then pen.(reverse := false, fg := pen.bg, bg := pen.fg) else pen
  {
    OneCode(p, table, pen, 7);
    OneCode(p, table, pen, 27);
  }

  /** Codes that select something. */
  predicate Known(code: u32) {
    code in {0, 1, 5, 7, 22, 25, 27, 38, 39, 48, 49} || 30 <= code <= 37 || 40 <= code <= 47 || 90 <= code <= 97
    || 100 <= code <= 107
  }

  lemma UnknownCode(p: Palette, table: ColourTable, pen: Pen, code: u32)
    requires !Known(code)
    ensures SelectRendition(p, table, pen, [code]) == pen
  {
    OneCode(p, table, pen, code);
  }

  // ---- Lists of codes

  /** What a list of codes does from a position on is what the rest of the list does. */
  lemma {:induction false} CodesOfRest(p: Palette, table: ColourTable, pen: Pen, first: seq<u32>, codes: seq<u32>,
    i: nat)
    ensures Codes(p, table, pen, first + codes, |first| + i) == Codes(p, table, pen, codes, i)
    decreases |codes| - i
  {
    hide Code, Rgb;
    var all, j := first + codes, |first| + i;
    if i < |codes| {
      assert all[j] == codes[i];
      if codes[i] != 38 && codes[i] != 48 {
        CodesOfRest(p, table, Code(p, pen, codes[i]), first, codes, i + 1);
      } else if i + 1 < |codes| {
        assert all[j + 1] == codes[i + 1];
        ExtendedOfRest(p, table, pen, first, codes, i);
      }
    }
  }

  lemma {:induction false} ExtendedOfRest(p: Palette, table: ColourTable, pen: Pen, first: seq<u32>, codes: seq<u32>,
    i: nat)
    requires i + 1 < |codes| && (codes[i] == 38 || codes[i] == 48)
    ensures Codes(p, table, pen, first + codes, |first| + i) == Codes(p, table, pen, codes, i)
    decreases |codes| - i, 0
  {
    hide Code, Rgb;
    var all, j := first + codes, |first| + i;
    assert all[j] == codes[i] && all[j + 1] == codes[i + 1];
    if codes[i + 1] == 2 {
      if i + 4 < |codes| {
        assert all[j + 2] == codes[i + 2] && all[j + 3] == codes[i + 3] && all[j + 4] == codes[i + 4];
        var colour := Rgb(codes[i + 2], codes[i + 3], codes[i + 4]);
        CodesOfRest(p, table, if codes[i] == 38 then pen.(fg := colour) else pen.(bg := colour), first, codes, i + 5);
      }
    } else if codes[i + 1] == 5 {
      if i + 2 < |codes| {
        assert all[j + 2] == codes[i + 2];
        CodesOfRest(p, table, Indexed(p, table, pen, codes[i] == 38, codes[i + 2]), first, codes, i + 3);
      }
    } else {
      CodesOfRest(p, table, pen, first, codes, i + 2);
    }
  }

  /** The first code, and then the others. */
  lemma FirstCode(p: Palette, table: ColourTable, pen: Pen, code: u32, rest: seq<u32>)
    requires code != 38 && code != 48 && |rest| >= 1
    ensures SelectRendition(p, table, pen, [code] + rest) ==
      SelectRendition(p, table, SelectRendition(p, table, pen, [code]), rest)
  {
    hide Code;
    OneCode(p, table, pen, code);
    CodesOfRest(p, table, Code(p, pen, code), [code], rest, 0);
    assert Codes(p, table, pen, [code] + rest, 0) == Codes(p, table, Code(p, pen, code), [code] + rest, 1);
  }

  // ---- Colours of codes 38 and 48

  /** A colour written as such: the rendition keeps what it was, whatever reverse video, and the other codes
      follow. */
  lemma DirectColour(p: Palette, table: ColourTable, pen: Pen, r: byte, g: byte, b: byte, rest: seq<u32>)
    requires |rest| >= 1
    ensures SelectRendition(p, table, pen, [38, 2, r, g, b] + rest) ==
      SelectRendition(p, table, pen.(fg := r * 0x1_0000 + g * 0x100 + b), rest)
    ensures SelectRendition(p, table, pen, [48, 2, r, g, b] + rest) ==
      SelectRendition(p, table, pen.(bg := r * 0x1_0000 + g * 0x100 + b), rest)
    ensures SelectRendition(p, table, pen, [38, 2, r, g, b]) == pen.(fg := r * 0x1_0000 + g * 0x100 + b)
    ensures SelectRendition(p, table, pen, [48, 2, r, g, b]) == pen.(bg := r * 0x1_0000 + g * 0x100 + b)
  {
    hide Rgb;
    RgbIs(r, g, b);
    var colour := r * 0x1_0000 + g * 0x100 + b;
    DirectList(p, table, pen, 38, r, g, b, rest);
    DirectList(p, table, pen, 48, r, g, b, rest);
    DirectList(p, table, pen, 38, r, g, b, []);
    DirectList(p, table, pen, 48, r, g, b, []);
    assert [38, 2, r, g, b] + [] == [38, 2, r, g, b] && [48, 2, r, g, b] + [] == [48, 2, r, g, b];
  }

  lemma DirectList(p: Palette, table: ColourTable, pen: Pen, code: u32, r: byte, g: byte, b: byte, rest: seq<u32>)
    requires code == 38 || code == 48
    ensures SelectRendition(p, table, pen, [code, 2, r, g, b] + rest) ==
      Codes(p, table, if code == 38 then pen.(fg := Rgb(r, g, b)) else pen.(bg := Rgb(r, g, b)), rest, 0)
  {
    hide Rgb, Code;
    var codes: seq<u32> := [code, 2, r, g, b] + rest;
    var next := if code == 38 then pen.(fg := Rgb(r, g, b)) else pen.(bg := Rgb(r, g, b));
    CodesOfRest(p, table, next, [code, 2, r, g, b], rest, 0);
    assert codes[0] == code && codes[1] == 2 && codes[2] == r && codes[3] == g && codes[4] == b;
    assert Codes(p, table, pen, codes, 0) == Codes(p, table, next, codes, 5);
  }

  lemma RgbIs(r: byte, g: byte, b: byte)
    ensures Rgb(r, g, b) == r * 0x1_0000 + g * 0x100 + b
  {
    hide BitOr, Pow2;
    MachinePowers();
    assert r * 0x1_0000 % 0x1_0000 == 0 && g * 0x100 < 0x1_0000;
    OrOfDisjoint(r * 0x1_0000, g * 0x100, 16);
    assert (r * 0x1_0000 + g * 0x100) % 0x100 == 0;
    OrOfDisjoint(r * 0x1_0000 + g * 0x100, b, 8);
  }

  /** A number of the 256-colour palette: the eight colours, their bright forms, and the table. */
  lemma NumberedColour(p: Palette, table: ColourTable, pen: Pen, n: nat)
    requires n < 256
    ensures var colour := if n < 8 then p.ansi[n] else if n < 16 then p.bright[n - 8] else table[n - 16];
      && SelectRendition(p, table, pen, [38, 5, n]) == pen.(fg := colour)
      && SelectRendition(p, table, pen, [48, 5, n]) == pen.(bg := colour)
  {
    NumberedList(p, table, pen, 38, n);
    NumberedList(p, table, pen, 48, n);
  }

  lemma NumberedList(p: Palette, table: ColourTable, pen: Pen, code: u32, n: nat)
    requires (code == 38 || code == 48) && n < 256
    ensures SelectRendition(p, table, pen, [code, 5, n]) == Indexed(p, table, pen, code == 38, n)
  {
    hide Code, Indexed, Rgb;
    var codes: seq<u32> := [code, 5, n];
    var next := Indexed(p, table, pen, code == 38, n);
    assert codes[0] == code && codes[1] == 5 && codes[2] == n;
    assert Codes(p, table, next, codes, 3) == next;
    assert Codes(p, table, pen, codes, 0) == Codes(p, table, next, codes, 3);
  }

  /** One that is cut off ends the list without effect. */
  lemma CutOff(p: Palette, table: ColourTable, pen: Pen, code: u32, r: u32, g: u32)
    requires code == 38 || code == 48
    ensures SelectRendition(p, table, pen, [code]) == SelectRendition(p, table, pen, [code, 2])
      == SelectRendition(p, table, pen, [code, 2, r]) == SelectRendition(p, table, pen, [code, 2, r, g])
      == SelectRendition(p, table, pen, [code, 5]) == pen
  {
  }

  // ---- From bytes

  /** `CSI 3k m` in a terminal just initialised: text is written in colour k; with `;7` behind it, on colour k. */
  lemma ColourSequence(cfg: Config, t: Term, k: nat)
    requires Idle(t.parser) && k < 8
    requires PenOf(t) == RawPen(false, false, false, None, None, cfg.palette.defaultFg, 0xffff_ffff)
    ensures var s := PutAll(cfg, t, Csi([30 + k], 0x6d)).screen;
      s.textFg == cfg.palette.ansi[k] && s.textBg == 0xffff_ffff
    ensures var s := PutAll(cfg, t, Csi([30 + k, 7], 0x6d)).screen;
      s.textFg == 0xffff_ffff && s.textBg == cfg.palette.ansi[k]
    ensures var s := PutAll(cfg, t, Csi([40 + k], 0x6d)).screen;
      s.textFg == cfg.palette.defaultFg && s.textBg == cfg.palette.ansi[k]
  {
    hide PutAll, Csi, SelectRendition, TermOk;
    var p, table, pen := cfg.palette, cfg.table, PenOf(t);
    RenditionSequence(cfg, t, [30 + k]);
    RenditionSequence(cfg, t, [30 + k, 7]);
    RenditionSequence(cfg, t, [40 + k]);
    assert Kept([30 + k]) == [30 + k] && Kept([40 + k]) == [40 + k] && Kept([30 + k, 7]) == [30 + k] + [7];
    TextColour(p, table, pen, k);
    BackColour(p, table, pen, k);
    FirstCode(p, table, pen, 30 + k, [7]);
    ReverseCode(p, table, SelectRendition(p, table, pen, [30 + k]));
  }

  /** A terminal just initialised has that pen. */
  lemma InitialPen(cfg: Config, s: Screen)
    requires Settled(s) && s.textFg == cfg.palette.defaultFg && s.textBg == TRANSPARENT
    ensures PenOf(Reinit(ZeroedTerm(s))) ==
      RawPen(false, false, false, None, None, cfg.palette.defaultFg, 0xffff_ffff)
  {
  }
}
