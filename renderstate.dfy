// The render state of the painter: the items of the styled segments under the
// current position, and the colours Apply last gave the device context.

module Rendering {

  /** A segment's identity; items are matched against it by reference. */
  type SegmentId = nat

  /** What a style fills in for a segment: a colour of -1 means "not set". */
  datatype Item = Item(foreZ: int, backZ: int, fore: int, back: int, segment: SegmentId)

  datatype Layer = Fore | Back

  function ColorOf(item: Item, layer: Layer): int
  {
    if layer == Fore then item.fore else item.back
  }

  function ZOf(item: Item, layer: Layer): int
  {
    if layer == Fore then item.foreZ else item.backZ
  }

  /** The device calls Apply makes, in order. */
  datatype DeviceCall = SetBkMode(isOpaque: bool) | SetBkColor(color: int) | SetTextColor(color: int)

  /** The running choice of a layer's colour: its Z-index and the colour, both starting at -1. */
  datatype Choice = Choice(z: int, color: int)

  /** One item looked at: it takes over only with a set colour and a strictly greater Z-index. */
  function Consider(c: Choice, item: Item, layer: Layer): Choice
  {
    if ColorOf(item, layer) != -1 && ZOf(item, layer) > c.z then Choice(ZOf(item, layer), ColorOf(item, layer)) else c
  }

  /** The choice after looking at every item in order. */
  function Chosen(items: seq<Item>, layer: Layer): Choice
  {
    if |items| == 0 then Choice(-1, -1)
    else Consider(Chosen(items[..|items| - 1], layer), items[|items| - 1], layer)
  }

  /** Some item with a set colour has a Z-index above -1. */
  predicate Competes(items: seq<Item>, layer: Layer)
  {
    exists k :: 0 <= k < |items| && ColorOf(items[k], layer) != -1 && ZOf(items[k], layer) > -1
  }

  /**
   * The chosen colour is -1 exactly when no item competes; otherwise it is
   * the colour of the first item with the strictly greatest Z-index among the
   * items whose colour is set.
   */
  lemma {:induction false} ChosenIsFirstHighest(items: seq<Item>, layer: Layer)
    ensures var c := Chosen(items, layer);
      && (c.color == -1 <==> !Competes(items, layer))
      && (c.color == -1 ==> c.z == -1)
      && (forall j :: 0 <= j < |items| && ColorOf(items[j], layer) != -1 ==> ZOf(items[j], layer) <= c.z)
      && (c.color != -1 ==> exists k :: 0 <= k < |items| && Winner(items, layer, k, c))
  {
    if |items| > 0 {
      var init := items[..|items| - 1];
      var last := items[|items| - 1];
      ChosenIsFirstHighest(init, layer);
      var c0 := Chosen(init, layer);
      var c := Chosen(items, layer);
      assert forall j :: 0 <= j < |init| ==> init[j] == items[j];
      if c0.color != -1 {
        var k :| 0 <= k < |init| && Winner(init, layer, k, c0);
        if c == c0 {
          assert Winner(items, layer, k, c);
        }
      }
      if c != c0 {
        assert Winner(items, layer, |items| - 1, c);
      }
    }
  }

  /** Item k wins with c: its colour and Z-index, and no earlier set item reaches that Z-index. */
  predicate Winner(items: seq<Item>, layer: Layer, k: int, c: Choice)
    requires 0 <= k < |items|
  {
    && ColorOf(items[k], layer) == c.color && ZOf(items[k], layer) == c.z
    && forall j :: 0 <= j < k && ColorOf(items[j], layer) != -1 ==> ZOf(items[j], layer) < c.z
  }

  /** The background calls: transparent mode for -1, else opaque mode and the colour; nothing when unchanged. */
  function BackCalls(previous: int, back: int): seq<DeviceCall>
  {
    if previous == back then []
    else if back == -1 then [SetBkMode(false)]
    else [SetBkMode(true), SetBkColor(back)]
  }

  /** The colour the text gets: the chosen one, or the default item's when none was chosen. */
  function TextColor(fore: int, defaultFore: int): int
  {
    if fore == -1 then defaultFore else fore
  }

  /** The text colour call, made when the chosen colour differs from the stored one. */
  function ForeCalls(previous: int, fore: int, defaultFore: int): seq<DeviceCall>
  {
    if previous == fore then [] else [SetTextColor(TextColor(fore, defaultFore))]
  }

  /** The stored fore colour after Apply: the substituted one whenever a call was made. */
  function ForeAfter(previous: int, fore: int, defaultFore: int): int
  {
    if previous == fore then previous else TextColor(fore, defaultFore)
  }

  /** A second Apply with the same background colour makes no background call. */
  lemma BackSettles(previous: int, back: int)
    ensures BackCalls(if previous == back then previous else back, back) == []
  {
  }

  /**
   * When no item sets a fore colour and the default one is set, the stored
   * value is the default one, so every later Apply with the same items
   * repeats the text colour call.
   */
  lemma ForeFallbackRepeats(previous: int, defaultFore: int)
    requires defaultFore != -1
    ensures var stored := ForeAfter(previous, -1, defaultFore);
      && stored == (if previous == -1 then -1 else defaultFore)
      && (previous != -1 ==> ForeCalls(stored, -1, defaultFore) == [SetTextColor(defaultFore)])
  {
  }

  /** A chosen fore colour, once stored, is not sent again. */
  lemma ForeSettles(previous: int, fore: int, defaultFore: int)
    requires fore != -1
    ensures ForeCalls(ForeAfter(previous, fore, defaultFore), fore, defaultFore) == []
  {
  }

  /** The items without the first one of segment, or all of them when there is none. */
  function WithoutFirst(items: seq<Item>, segment: SegmentId): seq<Item>
  {
    if |items| == 0 then []
    else if items[0].segment == segment then items[1..]
    else [items[0]] + WithoutFirst(items[1..], segment)
  }

  /** Remove takes out exactly the first item of the segment: items after it and before it are kept in order. */
  lemma {:induction false} WithoutFirstRemovesOne(items: seq<Item>, segment: SegmentId, k: int)
    requires 0 <= k <= |items|
    requires forall j :: 0 <= j < k ==> items[j].segment != segment
    requires k < |items| ==> items[k].segment == segment
    ensures k == |items| ==> WithoutFirst(items, segment) == items
    ensures k < |items| ==> WithoutFirst(items, segment) == items[..k] + items[k + 1..]
    decreases k
  {
    if k == 0 {
      if |items| > 0 {
        assert items[..0] + items[1..] == items[1..];
      } else {
        assert items == [];
      }
    } else {
      WithoutFirstRemovesOne(items[1..], segment, k - 1);
      if k < |items| {
        assert items[1..][..k - 1] + items[1..][k..] == items[1..k] + items[k + 1..];
        assert [items[0]] + items[1..k] == items[..k];
      } else {
        assert [items[0]] + items[1..] == items;
      }
    }
  }

  class RenderState {
    var items: seq<Item>
    /** The fore colour of the default style's item. */
    const defaultFore: int
    var previousBack: int
    var previousFore: int
    /** The calls made on the device context so far. */
    var calls: seq<DeviceCall>

    constructor (defaultFore: int)
      ensures items == [] && this.defaultFore == defaultFore && previousBack == -1 && previousFore == -1 && calls == []
    {
      items := [];
      this.defaultFore := defaultFore;
      previousBack := -1;
      previousFore := -1;
      calls := [];
    }

    /** Add: the segment's item, as its style fills it, goes last; always true. */
    method Add(item: Item) returns (r: bool)
      modifies this`items
      ensures r && items == old(items) + [item]
    {
      items := items + [item];
      return true;
    }

    /** Remove: only the first item holding the segment is taken out. */
    method Remove(segment: SegmentId)
      modifies this`items
      ensures items == WithoutFirst(old(items), segment)
    {
      var i := 0;
      while i < |items|
        invariant 0 <= i <= |items|
        invariant forall j :: 0 <= j < i ==> items[j].segment != segment
      {
        if items[i].segment == segment {
          WithoutFirstRemovesOne(items, segment, i);
          items := items[..i] + items[i + 1..];
          return;
        }
        i := i + 1;
      }
      WithoutFirstRemovesOne(items, segment, i);
    }

    /**
     * Apply: the fore and back colours chosen from the items, the background
     * calls when the back colour changed, then the text colour call when the
     * fore colour changed.
     */
    method Apply()
      modifies this`previousBack, this`previousFore, this`calls
      ensures var fore, back := Chosen(items, Fore).color, Chosen(items, Back).color;
        && previousBack == back
        && previousFore == ForeAfter(old(previousFore), fore, defaultFore)
        && calls == old(calls) + BackCalls(old(previousBack), back) + ForeCalls(old(previousFore), fore, defaultFore)
    {
      var foreZ, fore := -1, -1;
      var backZ, back := -1, -1;
      var i := 0;
      while i < |items|
        invariant 0 <= i <= |items|
        invariant Choice(foreZ, fore) == Chosen(items[..i], Fore)
        invariant Choice(backZ, back) == Chosen(items[..i], Back)
      {
        var item := items[i];
        assert items[..i + 1][..i] == items[..i];
        if item.fore != -1 && item.foreZ > foreZ {
          foreZ, fore := item.foreZ, item.fore;
        }
        if item.back != -1 && item.backZ > backZ {
          backZ, back := item.backZ, item.back;
        }
        i := i + 1;
      }
      assert items[..i] == items;
      if previousBack != back {
        if back == -1 {
          calls := calls + [SetBkMode(false)];
        } else {
          calls := calls + [SetBkMode(true), SetBkColor(back)];
        }
        previousBack := back;
      }
      if previousFore != fore {
        if fore == -1 {
          fore := defaultFore;
        }
        calls := calls + [SetTextColor(fore)];
        previousFore := fore;
      }
    }
  }
}
