/**
 * ExtensionMethods: Prefix, which pads a text on the left, and
 * StringToKeys, which reads a hotkey such as "ctrl+F5" into key flags.
 * Enum.Parse of a key name is a parameter; it gives None where it throws.
 */
module Extensions {
  import opened Strs
  import opened Wrappers

  /** System.Windows.Forms.Keys, a flag set. */
  type Keys = bv32

  const KeysNone: Keys := 0
  const KeysControl: Keys := 0x2_0000

  /** Prefix: the text padded on the left with c up to length characters; a text already that long comes back as it is. */
  function Prefix(text: string, c: char, length: int): (r: string)
    ensures |r| == if |text| < length then length else |text|
    ensures r[|r| - |text|..] == text
    ensures forall i :: 0 <= i < |r| - |text| ==> r[i] == c
    ensures |text| >= length ==> r == text
  {
    if |text| < length then seq(length - |text|, _ => c) + text else text
  }

  /** Padding twice pads no more than once. */
  lemma PrefixIdempotent(text: string, c: char, length: int)
    ensures Prefix(Prefix(text, c, length), c, length) == Prefix(text, c, length)
  {
    var r := Prefix(text, c, length);
    assert |r| >= length;
  }

  /**
   * The flag of one part: "ctrl" in any case is Control; the two later
   * branches of the source test "ctrl" again and are never taken, so every
   * other name goes to Enum.Parse.
   */
  function PartKeys(part: string, parse: string -> Option<Keys>): Option<Keys>
  {
    if EqualsIgnoreCase(part, "ctrl") then Some(KeysControl) else parse(part)
  }

  /** Bitwise or of two flag sets. */
  function Or(a: Keys, b: Keys): Keys
  {
    a | b
  }

  /** Both flag sets or'ed together, or None when either part threw. */
  function OrKeys(a: Option<Keys>, b: Option<Keys>): Option<Keys>
  {
    if a.Some? && b.Some? then Some(Or(a.value, b.value)) else None
  }

  lemma OrLaws(x: Keys, y: Keys, z: Keys)
    ensures Or(Or(x, y), z) == Or(x, Or(y, z)) && Or(x, y) == Or(y, x) && Or(x, KeysNone) == x
  {
  }

  /** Or'ing flag sets, failures included, is associative and commutative. */
  lemma OrKeysLaws(a: Option<Keys>, b: Option<Keys>, c: Option<Keys>)
    ensures OrKeys(OrKeys(a, b), c) == OrKeys(a, OrKeys(b, c))
    ensures OrKeys(a, b) == OrKeys(b, a)
    ensures OrKeys(a, Some(KeysNone)) == a
  {
    if a.Some? && b.Some? && c.Some? {
      OrLaws(a.value, b.value, c.value);
    }
    if a.Some? && b.Some? {
      OrLaws(a.value, b.value, KeysNone);
    }
    if a.Some? {
      OrLaws(a.value, KeysNone, KeysNone);
    }
  }

  /** The flags of the parts or'ed together, None when some part does not parse. */
  function KeysOf(parts: seq<string>, parse: string -> Option<Keys>): Option<Keys>
    decreases |parts|
  {
    if |parts| == 0 then Some(KeysNone)
    else OrKeys(KeysOf(parts[..|parts| - 1], parse), PartKeys(parts[|parts| - 1], parse))
  }

  /** The flags of two runs of parts are those of each, or'ed. */
  lemma {:induction false} KeysOfAppend(a: seq<string>, b: seq<string>, parse: string -> Option<Keys>)
    ensures KeysOf(a + b, parse) == OrKeys(KeysOf(a, parse), KeysOf(b, parse))
    decreases |b|
  {
    if |b| == 0 {
      assert a + b == a;
      OrKeysLaws(KeysOf(a, parse), None, None);
    } else {
      var b' := b[..|b| - 1];
      assert (a + b)[..|a + b| - 1] == a + b';
      KeysOfAppend(a, b', parse);
      OrKeysLaws(KeysOf(a, parse), KeysOf(b', parse), PartKeys(b[|b| - 1], parse));
    }
  }

  /** The order of the parts does not matter: either run first gives the same flags, or the same failure. */
  lemma KeysOfCommutes(a: seq<string>, b: seq<string>, parse: string -> Option<Keys>)
    ensures KeysOf(a + b, parse) == KeysOf(b + a, parse)
  {
    KeysOfAppend(a, b, parse);
    KeysOfAppend(b, a, parse);
    OrKeysLaws(KeysOf(a, parse), KeysOf(b, parse), None);
  }

  /** Once a part fails, the whole fails. */
  lemma {:induction false} KeysOfStaysFailed(parts: seq<string>, n: nat, parse: string -> Option<Keys>)
    requires n <= |parts| && KeysOf(parts[..n], parse).None?
    ensures KeysOf(parts, parse).None?
    decreases |parts| - n
  {
    if n < |parts| {
      assert parts[..n + 1][..n] == parts[..n];
      KeysOfStaysFailed(parts, n + 1, parse);
    } else {
      assert parts[..n] == parts;
    }
  }

  /** StringToKeys: the '+'-separated parts read one by one and or'ed into the result. */
  method StringToKeys(str: string, parse: string -> Option<Keys>) returns (r: Option<Keys>)
    ensures r == KeysOf(Split(str, '+'), parse)
  {
    var parts := Split(str, '+');
    var key := KeysNone;
    var i := 0;
    while i < |parts|
      invariant 0 <= i <= |parts|
      invariant KeysOf(parts[..i], parse) == Some(key)
    {
      var k := PartKeys(parts[i], parse);
      assert parts[..i + 1][..i] == parts[..i];
      if k.None? {
        KeysOfStaysFailed(parts, i + 1, parse);
        return None;
      }
      key := Or(key, k.value);
      i := i + 1;
    }
    assert parts[..i] == parts;
    r := Some(key);
  }
}
