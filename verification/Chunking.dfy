/** Chunking independence: a caller may split its output over any number of writes. */
module Chunking {
  import opened Basics
  import opened Screens
  import opened Pixels
  import opened GlyphPixels
  import opened Framebuffers
  import opened Terminals
  import opened ParserLaws
  import opened TerminalObjects

  function Flatten(chunks: seq<seq<byte>>): seq<byte> {
    if |chunks| == 0 then [] else Flatten(chunks[..|chunks| - 1]) + chunks[|chunks| - 1]
  }

  /** What an earlier flush painted inside the text area does not matter to a later one. */
  lemma RenderForgets(d: Display, backdrop: seq<u32>, s: Screen, t: Screen)
    requires |backdrop| == FbSize(d) && s.rows == t.rows == d.rows && s.cols == t.cols == d.cols
    ensures Render(d, Render(d, backdrop, s), t) == Render(d, backdrop, t)
  {
    hide ScreenPixel;
  }

  /** The terminal is as one write of `bytes` would have left it. */
  ghost predicate Written(term: Terminal, t0: Term, fb0: seq<u32>, bytes: seq<byte>)
    requires term.Valid() && |fb0| == FbSize(term.fb.display)
    reads term, term.fb, term.fb.grid, term.fb.queue, term.fb.pending, term.fb.framebuffer
  {
    && term.View() == PutAll(term.cfg, t0, bytes)
    && term.fb.framebuffer[..] == if term.autoflush then Render(term.fb.display, fb0, term.View().screen) else fb0
  }

  method WriteNext(term: Terminal, ghost t0: Term, ghost fb0: seq<u32>, ghost bytes: seq<byte>, chunk: seq<byte>)
    requires term.Valid() && |fb0| == FbSize(term.fb.display) && Written(term, t0, fb0, bytes)
    modifies term, term.fb, term.fb.grid, term.fb.queue, term.fb.pending, term.fb.framebuffer
    ensures term.Valid() && Written(term, t0, fb0, bytes + chunk)
  {
    hide FbContext.Valid, FbContext.View, Render, PutAll, TermOk, WellFormed;
    ghost var before := term.View();
    term.Write(chunk);
    PutAllConcat(term.cfg, t0, bytes, chunk);
    if before.autoflush {
      RenderForgets(term.fb.display, fb0, before.screen, term.View().screen);
    }
  }

  /** Writing chunk by chunk leaves the terminal, the logical screen and the framebuffer exactly as one
      write of the whole, whose contract this is. */
  method WriteInChunks(term: Terminal, chunks: seq<seq<byte>>)
    requires term.Valid() && |chunks| >= 1
    modifies term, term.fb, term.fb.grid, term.fb.queue, term.fb.pending, term.fb.framebuffer
    ensures term.Valid()
    ensures term.View() == PutAll(term.cfg, old(term.View()), Flatten(chunks))
    ensures term.fb.framebuffer[..] ==
      if term.autoflush then Render(term.fb.display, old(term.fb.framebuffer[..]), term.View().screen)
      else old(term.fb.framebuffer[..])
    ensures term.autoflush ==> ScreenShown(term.fb.display, term.fb.framebuffer[..], term.View().screen)
  {
    hide FbContext.Valid, FbContext.View, Render, PutAll, TermOk, WellFormed, ScreenShown;
    term.fb.FramebufferSize();
    ghost var fb0 := term.fb.framebuffer[..];
    ghost var t0 := term.View();
    term.Write(chunks[0]);
    var i := 1;
    assert Flatten(chunks[..1]) == chunks[0] by { FlattenOne(chunks); }
    while i < |chunks|
      invariant 1 <= i <= |chunks| && term.Valid()
      invariant Written(term, t0, fb0, Flatten(chunks[..i]))
    {
      WriteNext(term, t0, fb0, Flatten(chunks[..i]), chunks[i]);
      FlattenNext(chunks, i);
      i := i + 1;
    }
    assert chunks[..i] == chunks;
    RenderShows(term.fb.display, fb0, term.View().screen);
  }

  lemma FlattenOne(chunks: seq<seq<byte>>)
    requires |chunks| >= 1
    ensures Flatten(chunks[..1]) == chunks[0]
  {
    assert chunks[..1][..0] == [];
    assert Flatten([]) == [];
  }

  lemma FlattenNext(chunks: seq<seq<byte>>, i: nat)
    requires i < |chunks|
    ensures Flatten(chunks[..i + 1]) == Flatten(chunks[..i]) + chunks[i]
  {
    assert chunks[..i + 1][..i] == chunks[..i];
  }
}
