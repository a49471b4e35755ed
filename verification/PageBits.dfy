/** The page bitmap of kernel/src/kernel/memory/mmu.c: one bit per physical page, 32 pages to a word. */
module PageBits {

  predicate BitAt(w: bv32, x: bv5) {
    (w >> x) & 1 == 1
  }

  function Mask(x: bv5): bv32 {
    1 << x
  }

  // The word operations by name, so that proofs can leave them folded.
  function And(w: bv32, m: bv32): bv32 { w & m }

  function Or(w: bv32, m: bv32): bv32 { w | m }

  function AndNot(w: bv32, m: bv32): bv32 { w & !m }

  function SetAt(w: bv32, x: bv5): bv32 {
    Or(w, Mask(x))
  }

  function ClearAt(w: bv32, x: bv5): bv32 {
    AndNot(w, Mask(x))
  }

  /** Testing bit x by shifting is testing it with a mask. */
  lemma Masked(w: bv32, x: bv5)
    ensures BitAt(w, x) <==> And(w, Mask(x)) != 0
  {
  }

  lemma MasksApart(x: bv5, y: bv5)
    requires x != y
    ensures And(Mask(x), Mask(y)) == 0
  {
  }

  lemma OrApart(w: bv32, m: bv32, n: bv32)
    requires And(m, n) == 0
    ensures And(Or(w, m), n) == And(w, n)
  {
  }

  lemma AndNotApart(w: bv32, m: bv32, n: bv32)
    requires And(m, n) == 0
    ensures And(AndNot(w, m), n) == And(w, n)
  {
  }

  lemma OrAndNot(w: bv32, m: bv32)
    requires And(w, m) == 0
    ensures AndNot(Or(w, m), m) == w
  {
  }

  lemma SetSame(w: bv32, x: bv5)
    ensures BitAt(SetAt(w, x), x)
  {
  }

  lemma SetOther(w: bv32, x: bv5, y: bv5)
    requires x != y
    ensures BitAt(SetAt(w, x), y) == BitAt(w, y)
  {
    hide BitAt, Mask, And, Or;
    Masked(SetAt(w, x), y);
    Masked(w, y);
    MasksApart(x, y);
    OrApart(w, Mask(x), Mask(y));
  }

  lemma ClearSame(w: bv32, x: bv5)
    ensures !BitAt(ClearAt(w, x), x)
  {
  }

  lemma ClearOther(w: bv32, x: bv5, y: bv5)
    requires x != y
    ensures BitAt(ClearAt(w, x), y) == BitAt(w, y)
  {
    hide BitAt, Mask, And, AndNot;
    Masked(ClearAt(w, x), y);
    Masked(w, y);
    MasksApart(x, y);
    AndNotApart(w, Mask(x), Mask(y));
  }

  lemma ClearSet(w: bv32, x: bv5)
    requires !BitAt(w, x)
    ensures ClearAt(SetAt(w, x), x) == w
  {
    hide BitAt, Mask, And, Or, AndNot;
    Masked(w, x);
    OrAndNot(w, Mask(x));
  }

  lemma FullWord(x: bv5)
    ensures BitAt(0xFFFF_FFFF, x)
  {
  }

  /** Bit b of a word, by number. */
  predicate Bit(w: bv32, b: nat)
    requires b < 32
  {
    BitAt(w, b as bv5)
  }

  lemma Different(b: nat, c: nat)
    requires b < 32 && c < 32 && b != c
    ensures b as bv5 != c as bv5
  {
    BitNumber(b);
    BitNumber(c);
  }

  lemma BitNumber(b: nat)
    requires b < 32
    ensures (b as bv5) as nat == b
  {
  }

  // ---- pages ------------------------------------------------------------------

  type Bitmap = seq<bv32>

  /** get_page_from_bitmap for the page with this number: word page >> 5, bit page & 31. */
  predicate Marked(bm: Bitmap, page: nat)
    requires page / 32 < |bm|
  {
    Bit(bm[page / 32], page % 32)
  }

  /** set_page_to_bitmap. */
  function Mark(bm: Bitmap, page: nat, value: bool): (r: Bitmap)
    requires page / 32 < |bm|
    ensures |r| == |bm|
  {
    var w, x := bm[page / 32], (page % 32) as bv5;
    bm[page / 32 := if value then SetAt(w, x) else ClearAt(w, x)]
  }

  /** Writing one page's bit sets exactly that bit. */
  lemma MarkExactly(bm: Bitmap, page: nat, value: bool, other: nat)
    requires page / 32 < |bm| && other / 32 < |bm|
    ensures Marked(Mark(bm, page, value), other) == if other == page then value else Marked(bm, other)
  {
    hide BitAt, SetAt, ClearAt, Bit;
    var w, b, c := bm[page / 32], page % 32, other % 32;
    if other / 32 == page / 32 {
      MarkWord(w, b, value, c);
      assert other == page <==> b == c;
    }
  }

  lemma MarkWord(w: bv32, b: nat, value: bool, c: nat)
    requires b < 32 && c < 32
    ensures Bit(if value then SetAt(w, b as bv5) else ClearAt(w, b as bv5), c) == if b == c then value else Bit(w, c)
  {
    hide BitAt, SetAt, ClearAt;
    var x, y := b as bv5, c as bv5;
    if b == c {
      SetSame(w, x);
      ClearSame(w, x);
    } else {
      Different(b, c);
      SetOther(w, x, y);
      ClearOther(w, x, y);
    }
  }

  /** Marking a free page and unmarking it again gives back the same words. */
  lemma MarkUndone(bm: Bitmap, page: nat)
    requires page / 32 < |bm| && !Marked(bm, page)
    ensures Mark(Mark(bm, page, true), page, false) == bm
  {
    hide BitAt, SetAt, ClearAt;
    var w, x := bm[page / 32], (page % 32) as bv5;
    ClearSet(w, x);
  }
}
