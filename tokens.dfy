/**
 * Template tokens: the token types (only the freetext type is modelled; the
 * values any other type yields are a parameter), and the Token class whose
 * Process collects the type's values, drops duplicates, runs the attributes
 * over them and joins them with the item separator.
 */
module Tokens {
  import opened Wrappers
  import opened Strs
  import opened TokenAttributes

  /** A registered token type: its key and whether it is dynamic or freetext. */
  datatype TokenType = TokenType(key: string, isDynamic: bool, isFreetext: bool)

  /** TokenTypeFreetext: key "[Freetext]", not dynamic, freetext. */
  const Freetext := TokenType("[Freetext]", false, true)

  /** TokenTypeFreetext.Process: each attribute's value, in attribute order; foundAs is not consulted. */
  function FreetextValues(attrs: seq<Attribute>): (r: seq<string>)
    ensures |r| == |attrs|
    ensures forall i :: 0 <= i < |attrs| ==> r[i] == attrs[i].value
    decreases |attrs|
  {
    if |attrs| == 0 then [] else FreetextValues(attrs[..|attrs| - 1]) + [attrs[|attrs| - 1].value]
  }

  // ---------------------------------------------------------------------------
  // Dropping duplicates
  // ---------------------------------------------------------------------------

  predicate NoDuplicates(s: seq<string>)
  {
    forall i, j :: 0 <= i < j < |s| ==> s[i] != s[j]
  }

  /** The values of s added to acc one by one, each only when acc does not hold it yet. */
  function AddNew(acc: seq<string>, s: seq<string>): seq<string>
    decreases |s|
  {
    if |s| == 0 then acc else AddNew(if s[0] in acc then acc else acc + [s[0]], s[1..])
  }

  /** The values of s without repeats, each where it first occurs. */
  function Distinct(s: seq<string>): seq<string>
  {
    AddNew([], s)
  }

  lemma {:induction false} AddNewProps(acc: seq<string>, s: seq<string>)
    requires NoDuplicates(acc)
    ensures NoDuplicates(AddNew(acc, s))
    ensures forall x :: x in AddNew(acc, s) <==> x in acc || x in s
    ensures |acc| <= |AddNew(acc, s)| && AddNew(acc, s)[..|acc|] == acc
    decreases |s|
  {
    if |s| > 0 {
      var next := if s[0] in acc then acc else acc + [s[0]];
      AddNewProps(next, s[1..]);
      assert s == [s[0]] + s[1..];
      assert next[..|acc|] == acc;
    }
  }

  /** Values that already have no repeats and are new to acc are all added, in order. */
  lemma {:induction false} AddNewOfFresh(acc: seq<string>, s: seq<string>)
    requires NoDuplicates(s)
    requires forall x :: x in s ==> x !in acc
    ensures AddNew(acc, s) == acc + s
    decreases |s|
  {
    if |s| > 0 {
      assert s[0] !in acc;
      forall x | x in s[1..] ensures x !in acc + [s[0]] {
        var k :| 0 <= k < |s[1..]| && s[1..][k] == x;
        assert s[k + 1] == x;
      }
      AddNewOfFresh(acc + [s[0]], s[1..]);
      assert acc + [s[0]] + s[1..] == acc + s;
    }
  }

  /** Distinct keeps every value once and nothing else; a list without repeats comes back whole. */
  lemma DistinctProps(s: seq<string>)
    ensures NoDuplicates(Distinct(s))
    ensures forall x :: x in Distinct(s) <==> x in s
    ensures NoDuplicates(s) ==> Distinct(s) == s
  {
    AddNewProps([], s);
    if NoDuplicates(s) {
      AddNewOfFresh([], s);
    }
  }

  // ---------------------------------------------------------------------------
  // Process as a whole
  // ---------------------------------------------------------------------------

  /** The item separator after the non-altering pass of attrs, starting from separator. */
  function SeparatorAfter(attrs: seq<Attribute>, separator: string): string
    decreases |attrs|
  {
    if |attrs| == 0 then separator else SeparatorAfter(attrs[1..], Prepare(attrs[0], separator))
  }

  /** The value of the last Separator attribute wins; without one the separator is kept. */
  lemma {:induction false} LastSeparatorWins(attrs: seq<Attribute>, separator: string, k: int)
    requires 0 <= k < |attrs| && attrs[k].kind == Separator
    requires forall j :: k < j < |attrs| ==> attrs[j].kind != Separator
    ensures SeparatorAfter(attrs, separator) == attrs[k].value
    decreases |attrs|
  {
    if k > 0 {
      LastSeparatorWins(attrs[1..], Prepare(attrs[0], separator), k - 1);
    } else {
      NoSeparatorKeeps(attrs[1..], attrs[0].value);
    }
  }

  lemma {:induction false} NoSeparatorKeeps(attrs: seq<Attribute>, separator: string)
    requires forall j :: 0 <= j < |attrs| ==> attrs[j].kind != Separator
    ensures SeparatorAfter(attrs, separator) == separator
    decreases |attrs|
  {
    if |attrs| > 0 {
      NoSeparatorKeeps(attrs[1..], separator);
    }
  }

  /** The values after the altering pass of every attribute, in attribute order; None once one throws. */
  function AlterAll(attrs: seq<Attribute>, vs: seq<string>, p: Parsers): Option<seq<string>>
    decreases |attrs|
  {
    if |attrs| == 0 then Some(vs)
    else match Transform(attrs[0], vs, p)
      case None => None
      case Some(next) => AlterAll(attrs[1..], next, p)
  }

  /** Running two attribute lists one after the other is running them joined. */
  lemma {:induction false} AlterAllAppend(a: seq<Attribute>, b: seq<Attribute>, vs: seq<string>, p: Parsers)
    ensures AlterAll(a + b, vs, p) == match AlterAll(a, vs, p) case None => None case Some(mid) => AlterAll(b, mid, p)
    decreases |a|
  {
    if |a| == 0 {
      assert a + b == b;
    } else {
      assert (a + b)[1..] == a[1..] + b;
      if Transform(a[0], vs, p).Some? {
        AlterAllAppend(a[1..], b, Transform(a[0], vs, p).value, p);
      }
    }
  }

  /** Content and Separator attributes leave the values alone. */
  lemma {:induction false} PlainAttributesKeep(attrs: seq<Attribute>, vs: seq<string>, p: Parsers)
    requires forall j :: 0 <= j < |attrs| ==> attrs[j].kind == Content || attrs[j].kind == Separator
    ensures AlterAll(attrs, vs, p) == Some(vs)
    decreases |attrs|
  {
    if |attrs| > 0 {
      PlainAttributesKeep(attrs[1..], vs, p);
    }
  }

  /**
   * The text a token produces once its separator is set: None for a token
   * without a type (the source dereferences it) or when an attribute throws.
   */
  function Produced(tokenType: Option<TokenType>, attrs: seq<Attribute>, separator: string, typeValues: seq<string>, p: Parsers): Option<string>
  {
    if tokenType.None? then None
    else
      var collected := Distinct(if tokenType.value.isFreetext then FreetextValues(attrs) else typeValues);
      match AlterAll(attrs, collected, p)
      case None => None
      case Some(vs) => Some(Replace(Join(vs, separator), "\r\n", "\n"))
  }

  /** A text without '\r' has no "\r\n" to replace. */
  lemma {:induction false} NoCarriageReturnKept(s: string, rep: string)
    requires '\r' !in s
    ensures Replace(s, "\r\n", rep) == s
    decreases |s|
  {
    if |s| >= 2 {
      assert s[..2] != "\r\n" by { assert s[0] != '\r'; }
      NoCarriageReturnKept(s[1..], rep);
      assert s == [s[0]] + s[1..];
    }
  }

  lemma {:induction false} JoinKeepsOut(parts: seq<string>, separator: string, c: char)
    requires c !in separator && forall i :: 0 <= i < |parts| ==> c !in parts[i]
    ensures c !in Join(parts, separator)
    decreases |parts|
  {
    if |parts| > 1 {
      JoinKeepsOut(parts[1..], separator, c);
    }
  }

  /**
   * A freetext token whose attributes are all Content or Separator produces
   * its distinct values joined with the separator, when neither holds '\r'.
   */
  lemma FreetextJoinsValues(attrs: seq<Attribute>, separator: string, typeValues: seq<string>, p: Parsers)
    requires forall j :: 0 <= j < |attrs| ==> attrs[j].kind == Content || attrs[j].kind == Separator
    requires '\r' !in separator && forall j :: 0 <= j < |attrs| ==> '\r' !in attrs[j].value
    ensures Produced(Some(Freetext), attrs, separator, typeValues, p) == Some(Join(Distinct(FreetextValues(attrs)), separator))
  {
    var collected := Distinct(FreetextValues(attrs));
    PlainAttributesKeep(attrs, collected, p);
    DistinctProps(FreetextValues(attrs));
    forall i | 0 <= i < |collected| ensures '\r' !in collected[i] {
      assert collected[i] in FreetextValues(attrs);
    }
    JoinKeepsOut(collected, separator, '\r');
    NoCarriageReturnKept(Join(collected, separator), "\n");
  }

  // ---------------------------------------------------------------------------
  // CompareTo
  // ---------------------------------------------------------------------------

  /** Int32.CompareTo. */
  function CompareInt(a: int, b: int): (r: int)
    ensures r == 0 <==> a == b
    ensures r < 0 <==> a < b
  {
    if a < b then -1 else if a > b then 1 else 0
  }

  function Sign(n: int): int
  {
    if n < 0 then -1 else if n > 0 then 1 else 0
  }

  /** String.CompareTo with the culture comparison cmp: a null argument orders first. */
  function CompareText(a: string, b: Option<string>, cmp: (string, string) -> int): int
  {
    if b.None? then 1 else cmp(a, b.value)
  }

  /** The collecting loop of Process: a value is added only when the list does not contain it yet. */
  method Dedupe(yielded: seq<string>) returns (strings: seq<string>)
    ensures strings == Distinct(yielded)
  {
    strings := [];
    var i := 0;
    while i < |yielded|
      invariant 0 <= i <= |yielded|
      invariant Distinct(yielded) == AddNew(strings, yielded[i..])
    {
      assert yielded[i..][1..] == yielded[i + 1..];
      if yielded[i] !in strings {
        strings := strings + [yielded[i]];
      }
      i := i + 1;
    }
  }

  /** The altering loop of Process: every attribute in turn, stopping where one throws. */
  method AlterEach(attrs: seq<Attribute>, vs: seq<string>, p: Parsers) returns (r: Option<seq<string>>)
    ensures r == AlterAll(attrs, vs, p)
  {
    var strings := vs;
    var i := 0;
    while i < |attrs|
      invariant 0 <= i <= |attrs|
      invariant AlterAll(attrs, vs, p) == AlterAll(attrs[i..], strings, p)
    {
      assert attrs[i..][1..] == attrs[i + 1..];
      var next := TokenAttributes.Process(attrs[i], strings, p);
      if next.None? {
        return None;
      }
      strings := next.value;
      i := i + 1;
    }
    return Some(strings);
  }

  // ---------------------------------------------------------------------------
  // The token
  // ---------------------------------------------------------------------------

  class Token {
    /** The type, None where no type was found for the placeholder. */
    const tokenType: Option<TokenType>
    var attributes: seq<Attribute>
    var itemSeparator: string
    var foundAs: Option<string>

    /** A new token: the given type and found-as text, no attributes, the default separator. */
    constructor (tokenType: Option<TokenType>, foundAs: Option<string>, defaultSeparator: string)
      ensures this.tokenType == tokenType && this.foundAs == foundAs
      ensures itemSeparator == defaultSeparator && attributes == []
    {
      this.tokenType := tokenType;
      this.foundAs := foundAs;
      this.itemSeparator := defaultSeparator;
      this.attributes := [];
    }

    /**
     * Process: the non-altering pass sets the separator; then the type's values
     * (typeValues for a type other than freetext) are collected without repeats,
     * every attribute alters them in turn, and they are joined.
     */
    method Process(typeValues: seq<string>, p: Parsers) returns (r: Option<string>)
      modifies this`itemSeparator
      ensures itemSeparator == SeparatorAfter(attributes, old(itemSeparator))
      ensures r == Produced(tokenType, attributes, itemSeparator, typeValues, p)
    {
      var i := 0;
      while i < |attributes|
        invariant 0 <= i <= |attributes|
        invariant SeparatorAfter(attributes, old(itemSeparator)) == SeparatorAfter(attributes[i..], itemSeparator)
      {
        assert attributes[i..][1..] == attributes[i + 1..];
        if attributes[i].kind == Separator {
          itemSeparator := attributes[i].value;
        }
        i := i + 1;
      }
      if tokenType.None? {
        return None;
      }
      var yielded := if tokenType.value.isFreetext then FreetextValues(attributes) else typeValues;
      var strings := Dedupe(yielded);
      var altered := AlterEach(attributes, strings, p);
      if altered.None? {
        return None;
      }
      return Some(Replace(Join(altered.value, itemSeparator), "\r\n", "\n"));
    }

    /**
     * CompareTo: by type key, then attribute count, then the views' file paths,
     * then found-as text; None where the source dereferences a null (a missing
     * type, a missing other token, this path or this found-as text).
     */
    function CompareTo(other: Token?, path: Option<string>, otherPath: Option<string>, cmp: (string, string) -> int): Option<int>
      reads this, other
    {
      if other == null || tokenType.None? || other.tokenType.None? then None
      else
        var byKey := cmp(tokenType.value.key, other.tokenType.value.key);
        if byKey != 0 then Some(byKey)
        else
          var byCount := CompareInt(|attributes|, |other.attributes|);
          if byCount != 0 then Some(byCount)
          else if path.None? then None
          else
            var byPath := CompareText(path.value, otherPath, cmp);
            if byPath != 0 then Some(byPath)
            else if foundAs.None? then None
            else Some(CompareText(foundAs.value, other.foundAs, cmp))
    }
  }

  /** A culture comparison whose sign flips with its operands. */
  ghost predicate Antisymmetric(cmp: (string, string) -> int)
  {
    forall a, b :: Sign(cmp(a, b)) == -Sign(cmp(b, a))
  }

  /** For complete tokens and an antisymmetric comparison, swapping the tokens flips the sign. */
  lemma CompareToFlips(x: Token, y: Token, px: string, py: string, cmp: (string, string) -> int)
    requires Antisymmetric(cmp)
    requires x.tokenType.Some? && y.tokenType.Some? && x.foundAs.Some? && y.foundAs.Some?
    ensures x.CompareTo(y, Some(px), Some(py), cmp).Some? && y.CompareTo(x, Some(py), Some(px), cmp).Some?
    ensures Sign(x.CompareTo(y, Some(px), Some(py), cmp).value) == -Sign(y.CompareTo(x, Some(py), Some(px), cmp).value)
  {
    assert Sign(cmp(x.tokenType.value.key, y.tokenType.value.key)) == -Sign(cmp(y.tokenType.value.key, x.tokenType.value.key));
    assert Sign(cmp(px, py)) == -Sign(cmp(py, px));
    assert Sign(cmp(x.foundAs.value, y.foundAs.value)) == -Sign(cmp(y.foundAs.value, x.foundAs.value));
  }

  /** A complete token compares equal to itself when the comparison does. */
  lemma CompareToItself(x: Token, path: string, cmp: (string, string) -> int)
    requires forall a :: cmp(a, a) == 0
    requires x.tokenType.Some? && x.foundAs.Some?
    ensures x.CompareTo(x, Some(path), Some(path), cmp) == Some(0)
  {
    assert cmp(x.tokenType.value.key, x.tokenType.value.key) == 0;
    assert cmp(path, path) == 0;
    assert cmp(x.foundAs.value, x.foundAs.value) == 0;
  }
}
