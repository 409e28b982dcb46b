/**
 The photo gallery's cursor: an optional index into a fixed list of photos,
 moved by the enlarged-photo overlay's previous/next buttons with wraparound.
 The cursor operations are stated for any photo count `n >= 1`; the gallery
 itself uses `n == |Photos| == 2`.
 */
module Gallery {
  import opened Wrappers

  /** One gallery entry: an id, an image path and a fallback glyph. */
  datatype Photo = Photo(id: nat, src: string, fallback: string)

  /** The gallery's two photos, in display order. */
  const Photos: seq<Photo> := [
    Photo(1, "/images/IMG_9986.jpg", "\U{1F393}"),
    Photo(2, "/images/IMG_9981.jpg", "\U{1F465}")
  ]

  /** The selected photo's index, or `None` while no photo is enlarged. */
  type Cursor = Option<nat>

  /** A selected index, if any, addresses one of `n` photos. */
  predicate InRange(c: Cursor, n: nat)
  {
    c.Some? ==> c.value < n
  }

  /** Selecting thumbnail `index` enlarges that photo. */
  function Open(index: nat): (r: Cursor)
    ensures r.Some? && r.value == index
    ensures InRange(r, |Photos|) <==> index < |Photos|
  {
    Some(index)
  }

  /** Closing the overlay clears the selection. */
  function Close(): (r: Cursor)
    ensures r.None? && InRange(r, |Photos|)
  {
    None
  }

  /** Advances to the following photo, wrapping from the last to the first. */
  function Next(c: Cursor, n: nat): (r: Cursor)
    requires n > 0
    ensures r.None? <==> c.None?
    ensures InRange(r, n)
    ensures c == Some(n - 1) ==> r == Some(0)
  {
    match c
    case None => None
    case Some(i) => Some((i + 1) % n)
  }

  /** Steps back to the preceding photo, wrapping from the first to the last. */
  function Prev(c: Cursor, n: nat): (r: Cursor)
    requires n > 0
    ensures r.None? <==> c.None?
    ensures InRange(c, n) ==> InRange(r, n)
    ensures c == Some(0) ==> r == Some(n - 1)
  {
    match c
    case None => None
    case Some(i) => Some(if i == 0 then n - 1 else i - 1)
  }

  /** Within range and away from the wrap point, `Next` moves one step up. */
  lemma NextBelowLast(i: nat, n: nat)
    requires i + 1 < n
    ensures Next(Some(i), n) == Some(i + 1)
  {
  }

  /** `Prev` undoes `Next` on every in-range cursor. */
  lemma PrevAfterNext(c: Cursor, n: nat)
    requires n > 0 && InRange(c, n)
    ensures Prev(Next(c, n), n) == c
  {
    if c.Some? && c.value + 1 < n {
      NextBelowLast(c.value, n);
    }
  }

  /** `Next` undoes `Prev` on every in-range cursor. */
  lemma NextAfterPrev(c: Cursor, n: nat)
    requires n > 0 && InRange(c, n)
    ensures Next(Prev(c, n), n) == c
  {
    if c.Some? && c.value > 0 {
      NextBelowLast(c.value - 1, n);
    }
  }

  /** The cursor after `k` presses of the next button. */
  function Advance(c: Cursor, n: nat, k: nat): (r: Cursor)
    requires n > 0
    ensures r.None? <==> c.None?
    ensures k > 0 ==> InRange(r, n)
  {
    if k == 0 then c else Next(Advance(c, n, k - 1), n)
  }

  /** Pressing next `a` times and then `b` times is pressing it `a + b` times. */
  lemma {:induction false} AdvanceAdd(c: Cursor, n: nat, a: nat, b: nat)
    requires n > 0
    ensures Advance(Advance(c, n, a), n, b) == Advance(c, n, a + b)
  {
    if b > 0 {
      AdvanceAdd(c, n, a, b - 1);
    }
  }

  /** Below the wrap point, `k` presses of next add `k` to the index. */
  lemma {:induction false} AdvanceBelowLast(i: nat, n: nat, k: nat)
    requires i + k < n
    ensures Advance(Some(i), n, k) == Some(i + k)
  {
    if k > 0 {
      AdvanceBelowLast(i, n, k - 1);
      NextBelowLast(i + k - 1, n);
    }
  }

  /** Pressing next once per photo brings every selection back to itself. */
  lemma AdvanceFullCycle(c: Cursor, n: nat)
    requires n > 0 && InRange(c, n)
    ensures Advance(c, n, n) == c
  {
    if c.Some? {
      var i := c.value;
      // i --(n-1-i presses)--> n-1 --(1 press)--> 0 --(i presses)--> i
      AdvanceBelowLast(i, n, n - 1 - i);
      AdvanceAdd(c, n, n - 1 - i, 1);
      AdvanceBelowLast(0, n, i);
      AdvanceAdd(c, n, n - i, i);
    }
  }

  /** With the gallery's two photos, next and previous coincide and alternate. */
  lemma TwoPhotosAlternate(c: Cursor)
    requires InRange(c, |Photos|)
    ensures Next(c, |Photos|) == Prev(c, |Photos|)
    ensures Next(Some(0), |Photos|) == Some(1)
    ensures Next(Some(1), |Photos|) == Some(0)
  {
  }

  /** The overlay and grid controls of the gallery. */
  datatype Input =
    | Thumbnail(index: nat)  // a grid tile; one tile per photo
    | Backdrop               // the dimmed area around the enlarged photo
    | CloseButton
    | PrevButton
    | NextButton

  /**
   Whether a control exists to be clicked: one thumbnail per photo, and the
   overlay (backdrop, close, previous, next) only while a photo is selected.
   */
  predicate Enabled(c: Cursor, input: Input)
    ensures input.Thumbnail? ==> (Enabled(c, input) <==> input.index < |Photos|)
    ensures !input.Thumbnail? ==> (Enabled(c, input) <==> c.Some?)
  {
    match input
    case Thumbnail(i) => i < |Photos|
    case _ => c.Some?
  }

  /** The cursor after the handler wired to `input` runs. */
  function Step(c: Cursor, input: Input): (r: Cursor)
    ensures InRange(c, |Photos|) && Enabled(c, input) ==> InRange(r, |Photos|)
    ensures input.Thumbnail? ==> r == Some(input.index)
    ensures input.Backdrop? || input.CloseButton? ==> r.None?
    ensures input.PrevButton? || input.NextButton? ==> (r.None? <==> c.None?)
  {
    match input
    case Thumbnail(i) => Open(i)
    case Backdrop => Close()
    case CloseButton => Close()
    case PrevButton => Prev(c, |Photos|)
    case NextButton => Next(c, |Photos|)
  }

  /**
   The cursor after a sequence of clicks; a click aimed at a control that is
   not on screen does nothing.
   */
  function Run(c: Cursor, inputs: seq<Input>): (r: Cursor)
    requires InRange(c, |Photos|)
    ensures InRange(r, |Photos|)
    decreases |inputs|
  {
    if |inputs| == 0 then c
    else
      var c' := if Enabled(c, inputs[0]) then Step(c, inputs[0]) else c;
      Run(c', inputs[1..])
  }

  /**
   The photo the overlay shows: the entry at the selected index, read without
   a bounds check, so the selection must be in range.
   */
  function Enlarged(c: Cursor): (r: Option<Photo>)
    requires InRange(c, |Photos|)
    ensures r.None? <==> c.None?
    ensures r.Some? ==> r.value in Photos && r.value.id == c.value + 1
  {
    match c
    case None => None
    case Some(i) => Some(Photos[i])
  }
}
