/**
 * The token attribute types of a text template: each one rewrites the list of
 * values a token collected (Default, Quantity, Order, MathMinus, Length), sets
 * the token's item separator (Separator) or does nothing (Content).
 *
 * The list is changed in place by the source; here each transform is a method
 * over the list's value that returns the new list, or None where the source
 * throws. The number parsers of the .NET runtime are parameters.
 */
module TokenAttributes {
  import opened Wrappers
  import opened Strs
  import opened Seqs
  import opened Extensions

  datatype AttribKind = Content | Default | Length | MathMinus | Order | Quantity | Separator

  /** The key an attribute is written with in a placeholder. */
  function Key(k: AttribKind): string
  {
    match k
    case Content => "[Content]"
    case Default => "D"
    case Length => "L"
    case MathMinus => "-"
    case Order => "O"
    case Quantity => "Q"
    case Separator => "S"
  }

  /** No two kinds share a key, so a key names at most one kind. */
  lemma KeysDiffer(a: AttribKind, b: AttribKind)
    ensures Key(a) == Key(b) <==> a == b
  {
  }

  datatype Attribute = Attribute(kind: AttribKind, value: string)

  /**
   * The parsers the transforms consult: Convert.ToInt32 (None where it
   * throws), int.TryParse (None where it fails) and whether double.TryParse
   * succeeds.
   */
  datatype Parsers = Parsers(toInt32: string -> Option<int>, tryInt: string -> Option<int>, isNumber: string -> bool)

  // ---------------------------------------------------------------------------
  // The non-altering pass
  // ---------------------------------------------------------------------------

  /** The item separator after one attribute's non-altering pass: only Separator sets it. */
  function Prepare(a: Attribute, separator: string): (r: string)
    ensures a.kind != Separator ==> r == separator
  {
    if a.kind == Separator then a.value else separator
  }

  // ---------------------------------------------------------------------------
  // The altering pass, one attribute
  // ---------------------------------------------------------------------------

  /** AttribTypeDefault's result: an empty list holds just the value; otherwise each empty entry takes the value. */
  function Defaulted(vs: seq<string>, value: string): seq<string>
  {
    if |vs| == 0 then [value] else seq(|vs|, i requires 0 <= i < |vs| => if vs[i] == "" then value else vs[i])
  }

  /** AttribTypeQuantity's result: the first max entries; Convert.ToInt32 failing or a negative max throws. */
  function Quantified(vs: seq<string>, value: string, p: Parsers): Option<seq<string>>
  {
    match p.toInt32(value)
    case None => None
    case Some(m) => if m < 0 then None else if |vs| <= m then Some(vs) else Some(vs[..m])
  }

  /** The first character of the Order attribute's value, 'A' when it is empty. */
  function SortOption(value: string): char
  {
    if value == "" then 'A' else value[0]
  }

  /** AttribTypeOrder's result: sorted and reversed for 'A', sorted for 'D', as it was otherwise. */
  function OrderedBy(vs: seq<string>, value: string): seq<string>
  {
    if SortOption(value) == 'A' then Reversed(Sorted(vs))
    else if SortOption(value) == 'D' then Sorted(vs)
    else vs
  }

  /** The MathMinus attribute's entry: an Int32 entry less an Int32 value, with unchecked wrap-around. */
  function Minus(entry: string, value: string, p: Parsers): string
  {
    if p.tryInt(entry).Some? && p.tryInt(value).Some? then IntText(Wrap32(p.tryInt(entry).value - p.tryInt(value).value))
    else entry
  }

  /** AttribTypeMathMinus's result, entry by entry. */
  function Subtracted(vs: seq<string>, value: string, p: Parsers): seq<string>
  {
    seq(|vs|, i requires 0 <= i < |vs| => Minus(vs[i], value, p))
  }

  /** The Length attribute's entry: padded on the left with '0' when numeric, with ' ' otherwise. */
  function Padded(entry: string, length: int, p: Parsers): string
  {
    Prefix(entry, if p.isNumber(entry) then '0' else ' ', length)
  }

  /** AttribTypeLength's result: Convert.ToInt32 runs once per entry, so only a non-empty list can throw. */
  function Lengthened(vs: seq<string>, value: string, p: Parsers): Option<seq<string>>
  {
    if |vs| == 0 then Some(vs)
    else match p.toInt32(value)
      case None => None
      case Some(n) => Some(seq(|vs|, i requires 0 <= i < |vs| => Padded(vs[i], n, p)))
  }

  /** The values after one attribute's altering pass, or None where the source throws. */
  function Transform(a: Attribute, vs: seq<string>, p: Parsers): Option<seq<string>>
  {
    match a.kind
    case Content => Some(vs)
    case Separator => Some(vs)
    case Default => Some(Defaulted(vs, a.value))
    case Quantity => Quantified(vs, a.value, p)
    case Order => Some(OrderedBy(vs, a.value))
    case MathMinus => Some(Subtracted(vs, a.value, p))
    case Length => Lengthened(vs, a.value, p)
  }

  // ---------------------------------------------------------------------------
  // Sorting with StringComparer.OrdinalIgnoreCase
  // ---------------------------------------------------------------------------

  predicate Ascending(s: seq<string>)
  {
    forall i, j :: 0 <= i < j < |s| ==> CompareIgnoreCase(s[i], s[j]) <= 0
  }

  predicate Descending(s: seq<string>)
  {
    forall i, j :: 0 <= i < j < |s| ==> CompareIgnoreCase(s[i], s[j]) >= 0
  }

  /** x placed after every element of the sorted r that does not follow it. */
  function Insert(r: seq<string>, x: string): seq<string>
    decreases |r|
  {
    if |r| == 0 then [x]
    else if CompareIgnoreCase(r[|r| - 1], x) <= 0 then r + [x]
    else Insert(r[..|r| - 1], x) + [r[|r| - 1]]
  }

  /** The values sorted ignoring case; List.Sort's order among equal values is not fixed, this one keeps it. */
  function Sorted(s: seq<string>): seq<string>
    decreases |s|
  {
    if |s| == 0 then [] else Insert(Sorted(s[..|s| - 1]), s[|s| - 1])
  }

  /** A value placed after a sorted sequence whose elements all come before it keeps it sorted. */
  lemma AppendKeepsOrder(r: seq<string>, x: string)
    requires Ascending(r)
    requires forall k :: 0 <= k < |r| ==> CompareIgnoreCase(r[k], x) <= 0
    ensures Ascending(r + [x])
  {
    var t := r + [x];
    forall i, j | 0 <= i < j < |t| ensures CompareIgnoreCase(t[i], t[j]) <= 0 {
      if j < |r| {
        assert t[i] == r[i] && t[j] == r[j];
      }
    }
  }

  /** Every element of a sorted sequence comes before its last one. */
  lemma BelowLast(r: seq<string>, x: string)
    requires Ascending(r) && |r| > 0 && CompareIgnoreCase(r[|r| - 1], x) <= 0
    ensures forall k :: 0 <= k < |r| ==> CompareIgnoreCase(r[k], x) <= 0
  {
    forall k | 0 <= k < |r| ensures CompareIgnoreCase(r[k], x) <= 0 {
      if k < |r| - 1 {
        CompareIgnoreCaseTransitive(r[k], r[|r| - 1], x);
      }
    }
  }

  /** The elements of u, drawn from init and x, all come before last when those do. */
  lemma DrawnBelow(u: seq<string>, init: seq<string>, x: string, last: string)
    requires multiset(u) == multiset(init) + multiset{x}
    requires forall k :: 0 <= k < |init| ==> CompareIgnoreCase(init[k], last) <= 0
    requires CompareIgnoreCase(x, last) <= 0
    ensures forall k :: 0 <= k < |u| ==> CompareIgnoreCase(u[k], last) <= 0
  {
    forall k | 0 <= k < |u| ensures CompareIgnoreCase(u[k], last) <= 0 {
      assert u[k] in multiset(u);
      if u[k] != x {
        assert u[k] in multiset(init);
        var m :| 0 <= m < |init| && init[m] == u[k];
      }
    }
  }

  /**
   * Putting back the last element of the sorted r after u, the rest of r
   * with x inserted (x coming before that last element), keeps it sorted.
   */
  lemma PutLastBack(r: seq<string>, x: string, u: seq<string>)
    requires Ascending(r) && |r| > 0 && CompareIgnoreCase(r[|r| - 1], x) > 0
    requires Ascending(u) && multiset(u) == multiset(r[..|r| - 1]) + multiset{x}
    ensures Ascending(u + [r[|r| - 1]])
  {
    var last, init := r[|r| - 1], r[..|r| - 1];
    forall k | 0 <= k < |init| ensures CompareIgnoreCase(init[k], last) <= 0 {
      assert init[k] == r[k];
    }
    CompareIgnoreCaseFlips(last, x);
    DrawnBelow(u, init, x, last);
    AppendKeepsOrder(u, last);
  }

  /** Dropping the last element keeps a sequence sorted. */
  lemma AscendingInit(r: seq<string>)
    requires Ascending(r) && |r| > 0
    ensures Ascending(r[..|r| - 1])
  {
    var init := r[..|r| - 1];
    forall i, j | 0 <= i < j < |init| ensures CompareIgnoreCase(init[i], init[j]) <= 0 {
      assert init[i] == r[i] && init[j] == r[j];
    }
  }

  lemma {:induction false} InsertKeepsOrder(r: seq<string>, x: string)
    requires Ascending(r)
    ensures Ascending(Insert(r, x))
    ensures multiset(Insert(r, x)) == multiset(r) + multiset{x}
    decreases |r|
  {
    if |r| > 0 {
      var last := r[|r| - 1];
      var init := r[..|r| - 1];
      assert r == init + [last];
      if CompareIgnoreCase(last, x) <= 0 {
        BelowLast(r, x);
        AppendKeepsOrder(r, x);
      } else {
        AscendingInit(r);
        InsertKeepsOrder(init, x);
        PutLastBack(r, x, Insert(init, x));
      }
    }
  }

  /** Sorting gives a non-decreasing permutation of the values. */
  lemma {:induction false} SortedIsSorting(s: seq<string>)
    ensures Ascending(Sorted(s))
    ensures multiset(Sorted(s)) == multiset(s)
    decreases |s|
  {
    if |s| > 0 {
      SortedIsSorting(s[..|s| - 1]);
      InsertKeepsOrder(Sorted(s[..|s| - 1]), s[|s| - 1]);
      assert s == s[..|s| - 1] + [s[|s| - 1]];
    }
  }

  /** Reversing a non-decreasing list gives a non-increasing one. */
  lemma ReversedDescends(s: seq<string>)
    requires Ascending(s)
    ensures Descending(Reversed(s))
    ensures multiset(Reversed(s)) == multiset(s)
  {
    ReversedAt(s);
    forall i, j | 0 <= i < j < |s| ensures CompareIgnoreCase(Reversed(s)[i], Reversed(s)[j]) >= 0 {
      CompareIgnoreCaseFlips(s[|s| - 1 - j], s[|s| - 1 - i]);
    }
  }

  // ---------------------------------------------------------------------------
  // What each transform promises
  // ---------------------------------------------------------------------------

  /**
   * Order: 'A' (also the empty value) gives a non-increasing list, 'D' a
   * non-decreasing one, any other option the list as it was; always a
   * permutation.
   */
  lemma OrderPermutes(vs: seq<string>, value: string)
    ensures multiset(OrderedBy(vs, value)) == multiset(vs)
    ensures SortOption(value) == 'A' ==> Descending(OrderedBy(vs, value))
    ensures SortOption(value) == 'D' ==> Ascending(OrderedBy(vs, value))
    ensures SortOption(value) != 'A' && SortOption(value) != 'D' ==> OrderedBy(vs, value) == vs
  {
    SortedIsSorting(vs);
    ReversedDescends(Sorted(vs));
  }

  /** Default fills the empty entries and keeps the others; on a non-empty list the count is kept. */
  lemma DefaultFills(vs: seq<string>, value: string)
    requires |vs| > 0
    ensures |Defaulted(vs, value)| == |vs|
    ensures forall i :: 0 <= i < |vs| && vs[i] != "" ==> Defaulted(vs, value)[i] == vs[i]
    ensures value != "" ==> forall i :: 0 <= i < |vs| ==> Defaulted(vs, value)[i] != ""
  {
  }

  /** Quantity keeps a prefix of the list in its order, of at most max entries, and a short list whole. */
  lemma QuantityKeepsPrefix(vs: seq<string>, value: string, p: Parsers)
    requires p.toInt32(value).Some? && p.toInt32(value).value >= 0
    ensures var r := Quantified(vs, value, p);
      && r.Some?
      && |r.value| <= p.toInt32(value).value
      && r.value == vs[..|r.value|]
      && (|vs| <= p.toInt32(value).value ==> r.value == vs)
  {
  }

  /** MathMinus keeps the count; an entry changes only when both it and the value read as Int32. */
  lemma MinusKeepsOthers(vs: seq<string>, value: string, p: Parsers)
    ensures |Subtracted(vs, value, p)| == |vs|
    ensures p.tryInt(value).None? ==> Subtracted(vs, value, p) == vs
    ensures forall i :: 0 <= i < |vs| && p.tryInt(vs[i]).None? ==> Subtracted(vs, value, p)[i] == vs[i]
  {
  }

  /** An Int32 difference that does not overflow is written as its decimal digits, with a '-' when negative. */
  lemma MinusReadsBack(entry: string, value: string, p: Parsers)
    requires p.tryInt(entry).Some? && p.tryInt(value).Some?
    requires Int32Min <= p.tryInt(entry).value - p.tryInt(value).value <= Int32Max
    ensures var d := p.tryInt(entry).value - p.tryInt(value).value;
      var t := Minus(entry, value, p);
      && (d < 0 <==> (|t| > 0 && t[0] == '-'))
      && DigitsValue(if d < 0 then t[1..] else t) == (if d < 0 then -d else d)
  {
    var d := p.tryInt(entry).value - p.tryInt(value).value;
    assert Minus(entry, value, p) == IntText(d) by {
      assert Wrap32(d) == d;
    }
    IntTextShape(d);
  }

  /** Length keeps the count, pads every short entry to the length and leaves long enough entries alone. */
  lemma LengthPads(vs: seq<string>, value: string, p: Parsers)
    requires p.toInt32(value).Some?
    ensures var n := p.toInt32(value).value; var r := Lengthened(vs, value, p);
      && r.Some? && |r.value| == |vs|
      && forall i :: 0 <= i < |vs| ==>
        && |r.value[i]| == (if |vs[i]| < n then n else |vs[i]|)
        && r.value[i][|r.value[i]| - |vs[i]|..] == vs[i]
  {
  }

  // ---------------------------------------------------------------------------
  // The transforms, as the source runs them over the list
  // ---------------------------------------------------------------------------

  /** AttribTypeDefault: an empty list gets the value; otherwise every empty entry is replaced by it. */
  method DefaultProcess(value: string, vs: seq<string>) returns (r: seq<string>)
    ensures r == Defaulted(vs, value)
  {
    if |vs| == 0 {
      return [value];
    }
    r := vs;
    var i := 0;
    while i < |r|
      invariant |r| == |vs| && 0 <= i <= |r|
      invariant forall j :: 0 <= j < i ==> r[j] == Defaulted(vs, value)[j]
      invariant forall j :: i <= j < |r| ==> r[j] == vs[j]
    {
      r := r[i := if r[i] == "" then value else r[i]];
      i := i + 1;
    }
  }

  /** AttribTypeQuantity: RemoveAt(max) until at most max entries are left. */
  method QuantityProcess(value: string, vs: seq<string>, p: Parsers) returns (r: Option<seq<string>>)
    ensures r == Quantified(vs, value, p)
  {
    var parsed := p.toInt32(value);
    if parsed.None? {
      return None;
    }
    var m := parsed.value;
    var cur := vs;
    while |cur| > m
      invariant m < 0 || cur == vs || (m <= |cur| < |vs| && cur == vs[..m] + vs[|vs| - (|cur| - m)..])
      decreases |cur|
    {
      if m < 0 {
        // RemoveAt with a negative index throws.
        return None;
      }
      cur := cur[..m] + cur[m + 1..];
    }
    assert |vs| > m ==> cur == vs[..m] by {
      if |vs| > m && cur != vs {
        assert vs[|vs| - (|cur| - m)..] == [];
      }
    }
    return Some(cur);
  }

  /** AttribTypeOrder: the list sorted ignoring case, one insertion at a time, then reversed for 'A'. */
  method OrderProcess(value: string, vs: seq<string>) returns (r: seq<string>)
    ensures r == OrderedBy(vs, value)
  {
    var opt := if value == "" then 'A' else value[0];
    if opt != 'A' && opt != 'D' {
      return vs;
    }
    var sorted := [];
    var i := 0;
    while i < |vs|
      invariant 0 <= i <= |vs|
      invariant sorted == Sorted(vs[..i])
    {
      assert vs[..i + 1][..i] == vs[..i];
      sorted := Insert(sorted, vs[i]);
      i := i + 1;
    }
    assert vs[..i] == vs;
    r := sorted;
    if opt == 'A' {
      r := Reversed(sorted);
    }
  }

  /** AttribTypeMathMinus: every Int32 entry less the value when the value is an Int32. */
  method MathMinusProcess(value: string, vs: seq<string>, p: Parsers) returns (r: seq<string>)
    ensures r == Subtracted(vs, value, p)
  {
    r := vs;
    var i := 0;
    while i < |r|
      invariant |r| == |vs| && 0 <= i <= |r|
      invariant forall j :: 0 <= j < i ==> r[j] == Minus(vs[j], value, p)
      invariant forall j :: i <= j < |r| ==> r[j] == vs[j]
    {
      var current := p.tryInt(r[i]);
      if current.Some? {
        var subtrahend := p.tryInt(value);
        if subtrahend.Some? {
          r := r[i := IntText(Wrap32(current.value - subtrahend.value))];
        }
      }
      i := i + 1;
    }
  }

  /** AttribTypeLength: every entry padded on the left to the value's length. */
  method LengthProcess(value: string, vs: seq<string>, p: Parsers) returns (r: Option<seq<string>>)
    ensures r == Lengthened(vs, value, p)
  {
    var cur := vs;
    var i := 0;
    while i < |cur|
      invariant |cur| == |vs| && 0 <= i <= |cur|
      invariant i > 0 ==> p.toInt32(value).Some?
      invariant forall j :: 0 <= j < i ==> cur[j] == Padded(vs[j], p.toInt32(value).value, p)
      invariant forall j :: i <= j < |cur| ==> cur[j] == vs[j]
    {
      var isNumber := p.isNumber(cur[i]);
      var length := p.toInt32(value);
      if length.None? {
        return None;
      }
      cur := cur[i := Prefix(cur[i], if isNumber then '0' else ' ', length.value)];
      i := i + 1;
    }
    if |vs| > 0 {
      assert cur == seq(|vs|, j requires 0 <= j < |vs| => Padded(vs[j], p.toInt32(value).value, p));
    }
    return Some(cur);
  }

  /** One attribute's altering pass, dispatched on its kind; Content and Separator leave the list alone. */
  method Process(a: Attribute, vs: seq<string>, p: Parsers) returns (r: Option<seq<string>>)
    ensures r == Transform(a, vs, p)
  {
    match a.kind {
      case Content => r := Some(vs);
      case Separator => r := Some(vs);
      case Default =>
        var d := DefaultProcess(a.value, vs);
        r := Some(d);
      case Quantity => r := QuantityProcess(a.value, vs, p);
      case Order =>
        var o := OrderProcess(a.value, vs);
        r := Some(o);
      case MathMinus =>
        var m := MathMinusProcess(a.value, vs, p);
        r := Some(m);
      case Length => r := LengthProcess(a.value, vs, p);
    }
  }
}
