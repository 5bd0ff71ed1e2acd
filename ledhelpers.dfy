/** Drawer geometry of the LED strip and the array-filling macros of
    LightFanTemp/led_helpers.h. */
module LedHelpers {

  /** A `uint32_t` colour or pixel value. */
  type U32 = x: int | 0 <= x < 0x1_0000_0000

  const NUM_LEDS_IN_STRIP: nat := 42
  const MAX_DRAWERS: nat := 7
  const NUM_LEDS_PER_DRAWER: nat := 18
  const NUM_LEDS_PER_IC: nat := 3
  const NUM_ICS_PER_DRAWER: nat := NUM_LEDS_PER_DRAWER / NUM_LEDS_PER_IC

  /** LED_START_OFFSET(drawer): the first LED IC of a drawer. */
  function StartOffset(drawer: nat): (o: nat)
    ensures o % NUM_ICS_PER_DRAWER == 0 && o / NUM_ICS_PER_DRAWER == drawer
  {
    drawer * NUM_ICS_PER_DRAWER
  }

  /** LED_END_OFFSET(drawer): the first LED IC of the next drawer. */
  function EndOffset(drawer: nat): (o: nat)
    ensures o == StartOffset(drawer) + NUM_ICS_PER_DRAWER
  {
    StartOffset(drawer + 1)
  }

  /** Six ICs per drawer: drawer d is [6d, 6d + 6), drawer 0 is [0, 6), and the last drawer
      ends exactly at the end of the strip. */
  lemma OffsetValues(d: nat)
    ensures StartOffset(d) == 6 * d && EndOffset(d) == 6 * d + 6
    ensures StartOffset(0) == 0 && EndOffset(0) == 6
    ensures EndOffset(MAX_DRAWERS - 1) == NUM_LEDS_IN_STRIP == StartOffset(MAX_DRAWERS)
  {
    assert NUM_ICS_PER_DRAWER == 6;
  }

  /** The drawer an LED IC belongs to. */
  function DrawerOf(i: nat): nat
  {
    i / NUM_ICS_PER_DRAWER
  }

  /** The seven drawer ranges are adjacent, pairwise disjoint and together cover the strip:
      every IC of the strip lies in exactly one drawer, DrawerOf(i). */
  lemma DrawersPartitionStrip(i: nat, d: nat)
    requires i < NUM_LEDS_IN_STRIP
    ensures DrawerOf(i) < MAX_DRAWERS
    ensures StartOffset(DrawerOf(i)) <= i < EndOffset(DrawerOf(i))
    ensures StartOffset(d) <= i < EndOffset(d) <==> d == DrawerOf(i)
    ensures EndOffset(d) == StartOffset(d + 1)
  {
    OffsetValues(d);
    OffsetValues(DrawerOf(i));
    assert NUM_ICS_PER_DRAWER == 6;
    var q := i / 6;
    assert 6 * q <= i < 6 * q + 6;
    if d < q {
      assert 6 * d + 6 <= 6 * q;
    } else if d > q {
      assert 6 * q + 6 <= 6 * d;
    }
  }

  /** `s` with every element in [lo, hi) set to `c`. */
  function Painted(s: seq<U32>, lo: nat, hi: nat, c: U32): (r: seq<U32>)
    requires lo <= hi <= |s|
    ensures |r| == |s|
    ensures forall i :: 0 <= i < |s| ==> r[i] == if lo <= i < hi then c else s[i]
  {
    s[..lo] + seq(hi - lo, _ => c) + s[hi..]
  }

  /** The loop shared by the three macros: a[lo..hi) := c. */
  method Fill(a: array<U32>, lo: nat, hi: nat, c: U32)
    requires lo <= hi <= a.Length
    modifies a
    ensures a[..] == Painted(old(a[..]), lo, hi, c)
  {
    var i := lo;
    while i < hi
      invariant lo <= i <= hi
      invariant a[..] == Painted(old(a[..]), lo, i, c)
    {
      a[i] := c;
      i := i + 1;
    }
  }

  /** SET_COLOR_DRAWER(arry, x, color). */
  method SetColorDrawer(a: array<U32>, drawer: nat, color: U32)
    requires EndOffset(drawer) <= a.Length
    modifies a
    ensures a[..] == Painted(old(a[..]), StartOffset(drawer), EndOffset(drawer), color)
  {
    Fill(a, StartOffset(drawer), EndOffset(drawer), color);
  }

  /** CLEAR_STRIP(arry). */
  method ClearStrip(a: array<U32>)
    requires StartOffset(MAX_DRAWERS) <= a.Length
    modifies a
    ensures a[..] == Painted(old(a[..]), StartOffset(0), StartOffset(MAX_DRAWERS), 0)
  {
    Fill(a, StartOffset(0), StartOffset(MAX_DRAWERS), 0);
  }

  /** CLEAR_DRAWER(arry, x). */
  method ClearDrawer(a: array<U32>, drawer: nat)
    requires EndOffset(drawer) <= a.Length
    modifies a
    ensures a[..] == Painted(old(a[..]), StartOffset(drawer), EndOffset(drawer), 0)
  {
    Fill(a, StartOffset(drawer), EndOffset(drawer), 0);
  }

  /** CLEAR_STRIP leaves every LED of a strip-sized array at 0. */
  lemma ClearStripZeroes(s: seq<U32>)
    requires |s| == NUM_LEDS_IN_STRIP
    ensures Painted(s, StartOffset(0), StartOffset(MAX_DRAWERS), 0) == seq(NUM_LEDS_IN_STRIP, _ => 0)
  {
    OffsetValues(0);
  }

  /** On a cleared strip, SET_COLOR_DRAWER lights exactly drawer d's six ICs. */
  lemma SetAfterClear(s: seq<U32>, d: nat, c: U32)
    requires |s| == NUM_LEDS_IN_STRIP && d < MAX_DRAWERS
    ensures var r := Painted(Painted(s, StartOffset(0), StartOffset(MAX_DRAWERS), 0), StartOffset(d), EndOffset(d), c);
      forall i :: 0 <= i < NUM_LEDS_IN_STRIP ==> r[i] == if 6 * d <= i < 6 * d + 6 then c else 0
  {
    OffsetValues(d);
  }

  /** CLEAR_DRAWER after SET_COLOR_DRAWER of the same drawer brings that drawer back to 0 and
      leaves the rest of the strip as it was before both. */
  lemma ClearUndoesSet(s: seq<U32>, d: nat, c: U32)
    requires EndOffset(d) <= |s|
    ensures Painted(Painted(s, StartOffset(d), EndOffset(d), c), StartOffset(d), EndOffset(d), 0)
            == Painted(s, StartOffset(d), EndOffset(d), 0)
  {
  }
}
