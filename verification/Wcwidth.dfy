/** Display width of a character (`bisearch` and `mk_wcwidth` in kernel/flanterm/flanterm.c). */
module Wcwidth {
  import opened Basics

  datatype Interval = Interval(first: u32, last: u32)

  /** A sorted list of non-overlapping intervals, as the table of combining characters is. */
  predicate Sorted(table: seq<Interval>) {
    && (forall i :: 0 <= i < |table| ==> table[i].first <= table[i].last)
    && (forall i, j :: 0 <= i < j < |table| ==> table[i].last < table[j].first)
  }

  type Table = t: seq<Interval> | |t| >= 1 && Sorted(t) witness [Interval(0, 0)]

  ghost predicate InTable(ucs: u32, table: seq<Interval>) {
    exists i :: 0 <= i < |table| && table[i].first <= ucs <= table[i].last
  }

  /** Binary search finds the interval that holds a code point whenever there is one. */
  method Bisearch(ucs: u32, table: Table) returns (found: bool)
    ensures found <==> InTable(ucs, table)
  {
    var min, max := 0, |table| - 1;
    if ucs < table[0].first || ucs > table[max].last {
      return false;
    }
    while max >= min
      invariant 0 <= min <= max + 1 <= |table|
      invariant forall i :: 0 <= i < min ==> table[i].last < ucs
      invariant forall i :: max < i < |table| ==> ucs < table[i].first
    {
      var mid := (min + max) / 2;
      if ucs > table[mid].last {
        min := mid + 1;
      } else if ucs < table[mid].first {
        max := mid - 1;
      } else {
        return true;
      }
    }
    return false;
  }

  predicate Wide(ucs: u32) {
    ucs >= 0x1100 &&
    (ucs <= 0x115f ||
     ucs == 0x2329 || ucs == 0x232a ||
     (ucs >= 0x2e80 && ucs <= 0xa4cf && ucs != 0x303f) ||
     (ucs >= 0xac00 && ucs <= 0xd7a3) ||
     (ucs >= 0xf900 && ucs <= 0xfaff) ||
     (ucs >= 0xfe10 && ucs <= 0xfe19) ||
     (ucs >= 0xfe30 && ucs <= 0xfe6f) ||
     (ucs >= 0xff00 && ucs <= 0xff60) ||
     (ucs >= 0xffe0 && ucs <= 0xffe6) ||
     (ucs >= 0x20000 && ucs <= 0x2fffd) ||
     (ucs >= 0x30000 && ucs <= 0x3fffd))
  }

  /** The number of cells a character takes: none for NUL and combining characters, two for wide ones. */
  ghost function Width(table: seq<Interval>, ucs: u32): nat {
    if ucs == 0 then 0
    else if ucs < 32 || (ucs >= 0x7f && ucs < 0xa0) then 1
    else if InTable(ucs, table) then 0
    else if Wide(ucs) then 2 else 1
  }

  method MkWcwidth(table: Table, ucs: u32) returns (width: nat)
    ensures width == Width(table, ucs)
  {
    if ucs == 0 {
      return 0;
    }
    if ucs < 32 || (ucs >= 0x7f && ucs < 0xa0) {
      return 1;
    }
    var combining := Bisearch(ucs, table);
    if combining {
      return 0;
    }
    return 1 + if Wide(ucs) then 1 else 0;
  }

  /** The wide characters: Hangul, CJK, Yi, compatibility and full-width forms, and the supplementary planes. */
  const WideRanges: seq<Interval> := [
    Interval(0x1100, 0x115f), Interval(0x2329, 0x232a), Interval(0x2e80, 0x303e), Interval(0x3040, 0xa4cf),
    Interval(0xac00, 0xd7a3), Interval(0xf900, 0xfaff), Interval(0xfe10, 0xfe19), Interval(0xfe30, 0xfe6f),
    Interval(0xff00, 0xff60), Interval(0xffe0, 0xffe6), Interval(0x20000, 0x2fffd), Interval(0x30000, 0x3fffd)]

  lemma WideIs(ucs: u32)
    ensures Wide(ucs) <==> InTable(ucs, WideRanges)
  {
    var r := WideRanges;
    assert r[0] == Interval(0x1100, 0x115f) && r[1] == Interval(0x2329, 0x232a) && r[2] == Interval(0x2e80, 0x303e);
    assert r[3] == Interval(0x3040, 0xa4cf) && r[4] == Interval(0xac00, 0xd7a3) && r[5] == Interval(0xf900, 0xfaff);
    assert r[6] == Interval(0xfe10, 0xfe19) && r[7] == Interval(0xfe30, 0xfe6f) && r[8] == Interval(0xff00, 0xff60);
    assert r[9] == Interval(0xffe0, 0xffe6) && r[10] == Interval(0x20000, 0x2fffd);
    assert r[11] == Interval(0x30000, 0x3fffd);
  }

  /** No cell for NUL and for combining characters other than control characters; two for wide ones that do not
      combine; one for all others. */
  lemma WidthIs(table: Table, ucs: u32)
    ensures var control := 1 <= ucs < 0x20 || 0x7f <= ucs < 0xa0;
      && (Width(table, ucs) == 0 <==> ucs == 0 || (InTable(ucs, table) && !control))
      && (Width(table, ucs) == 2 <==> InTable(ucs, WideRanges) && !InTable(ucs, table))
      && Width(table, ucs) <= 2
  {
    WideIs(ucs);
  }
}
