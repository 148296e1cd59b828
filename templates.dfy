/**
 * Text templates: the constructor, which strips a "$$hotkey$$" prefix, and
 * GetTokens, which cuts the raw content into freetext tokens and placeholder
 * tokens. The placeholder matches of the regular expression are an input
 * (their position, length and two captured groups); the registered token
 * types and attribute kinds are inputs in registration order. Tokens are
 * described by value (type, attributes, found-as text).
 */
module Templates {
  import opened Wrappers
  import opened Strs
  import opened Extensions
  import opened TokenAttributes
  import opened Tokens

  datatype Template = Template(name: string, contentRaw: string, defaultHotkey: Keys)

  /** pat occurs in s at k. */
  predicate Found(s: string, pat: string, k: int)
  {
    0 <= k && k + |pat| <= |s| && s[k..k + |pat|] == pat
  }

  /** String.IndexOf(pat, from): the first index at or after from where pat occurs in s, or -1. */
  function IndexOf(s: string, pat: string, from: nat): (r: int)
    requires |pat| > 0
    ensures r == -1 || (from <= r && Found(s, pat, r))
    ensures forall k :: from <= k && (r == -1 || k < r) ==> !Found(s, pat, k)
    decreases |s| - from
  {
    if from + |pat| > |s| then -1
    else if s[from..from + |pat|] == pat then from
    else IndexOf(s, pat, from + 1)
  }

  /**
   * The Template constructor. Content starting with "$$" has the text up to
   * the next "$$" read as the hotkey, and both markers and the hotkey are cut
   * from the raw content; a missing closing "$$" or an unknown key name throws.
   */
  function NewTemplate(name: string, content: string, parse: string -> Option<Keys>): (r: Option<Template>)
    ensures r.Some? ==> r.value.name == name
    ensures !(|content| >= 2 && content[..2] == "$$") ==> r == Some(Template(name, content, KeysNone))
  {
    if |content| >= 2 && content[..2] == "$$" then
      var hotkeyEnd := IndexOf(content, "$$", 2);
      if hotkeyEnd < 0 then None
      else
        match KeysOf(Split(content[2..hotkeyEnd], '+'), parse)
        case None => None
        case Some(keys) => Some(Template(name, content[hotkeyEnd + 2..], keys))
    else Some(Template(name, content, KeysNone))
  }

  /** A hotkey without '$' written between the markers is read back, and the body is kept as it is. */
  lemma HotkeyStripped(name: string, hotkey: string, body: string, parse: string -> Option<Keys>)
    requires '$' !in hotkey
    ensures var r := NewTemplate(name, "$$" + hotkey + "$$" + body, parse);
      && (KeysOf(Split(hotkey, '+'), parse).None? ==> r.None?)
      && (KeysOf(Split(hotkey, '+'), parse).Some? ==>
            r == Some(Template(name, body, KeysOf(Split(hotkey, '+'), parse).value)))
  {
    var content := "$$" + hotkey + "$$" + body;
    var e := 2 + |hotkey|;
    assert Found(content, "$$", e) by {
      assert content[e..e + 2] == "$$";
    }
    forall k | 2 <= k < e ensures !Found(content, "$$", k) {
      assert content[k] == hotkey[k - 2];
    }
    assert content[..2] == "$$";
    assert content[2..e] == hotkey;
    assert content[e + 2..] == body;
  }

  /** Without a closing marker the constructor throws. */
  lemma UnclosedHotkeyThrows(name: string, rest: string, parse: string -> Option<Keys>)
    requires forall k :: !Found(rest, "$$", k)
    ensures NewTemplate(name, "$$" + rest, parse).None?
  {
    var content := "$$" + rest;
    assert content[..2] == "$$";
    forall k | 2 <= k ensures !Found(content, "$$", k) {
      assert !Found(rest, "$$", k - 2);
      if k + 2 <= |content| {
        assert content[k..k + 2] == rest[k - 2..k];
      }
    }
  }

  // ---------------------------------------------------------------------------
  // Placeholders
  // ---------------------------------------------------------------------------

  /** One placeholder match: where it is, how long it is, and its two groups (type key, attribute text). */
  datatype Match = Match(index: nat, length: nat, typeKey: string, attributeText: string)

  function End(m: Match): nat
  {
    m.index + m.length
  }

  /** What Regex.Matches delivers: non-empty matches inside the content, in order and not overlapping. */
  predicate Matches(content: string, ms: seq<Match>)
  {
    && (forall k :: 0 <= k < |ms| ==> 0 < ms[k].length && End(ms[k]) <= |content|)
    && (forall k :: 0 < k < |ms| ==> End(ms[k - 1]) <= ms[k].index)
  }

  /** A token described by value. */
  datatype TokenSpec = TokenSpec(tokenType: Option<TokenType>, attributes: seq<Attribute>, foundAs: Option<string>)

  /** A freetext token holding text as its one Content attribute. */
  function Free(text: string): TokenSpec
  {
    TokenSpec(Some(Freetext), [Attribute(Content, text)], None)
  }

  /** The token type for a key: the last non-dynamic type with that key, else the first dynamic type, else none. */
  function TypeFor(types: seq<TokenType>, key: string): Option<TokenType>
  {
    match LastStatic(types, key)
    case Some(t) => Some(t)
    case None => FirstDynamic(types)
  }

  function LastStatic(types: seq<TokenType>, key: string): (r: Option<TokenType>)
    ensures r.Some? ==> r.value in types && r.value.key == key && !r.value.isDynamic
    ensures r.None? ==> forall t :: t in types ==> t.key != key || t.isDynamic
    decreases |types|
  {
    if |types| == 0 then None
    else
      var last := types[|types| - 1];
      if last.key == key && !last.isDynamic then Some(last) else LastStatic(types[..|types| - 1], key)
  }

  function FirstDynamic(types: seq<TokenType>): (r: Option<TokenType>)
    ensures r.Some? ==> r.value in types && r.value.isDynamic
    ensures r.None? ==> forall t :: t in types ==> !t.isDynamic
    decreases |types|
  {
    if |types| == 0 then None
    else if types[0].isDynamic then Some(types[0])
    else FirstDynamic(types[1..])
  }

  /** The registered attribute kind for a key, the first one in registration order. */
  function KindFor(kinds: seq<AttribKind>, key: string): (r: Option<AttribKind>)
    ensures r.Some? ==> r.value in kinds && Key(r.value) == key
    ensures r.None? ==> forall k :: k in kinds ==> Key(k) != key
    decreases |kinds|
  {
    if |kinds| == 0 then None
    else if Key(kinds[0]) == key then Some(kinds[0])
    else KindFor(kinds[1..], key)
  }

  /**
   * One "key=value" part: with one '=' the key and value around it; with none
   * the first character and the rest; with more, FormatException. A key with
   * no registered kind also throws.
   */
  function AttributeOf(part: string, kinds: seq<AttribKind>): Option<Attribute>
    requires part != ""
  {
    var kv := Split(part, '=');
    var key := if |kv| == 2 then kv[0] else [part[0]];
    var value := if |kv| == 2 then kv[1] else part[1..];
    if |kv| > 2 then None
    else match KindFor(kinds, key)
      case None => None
      case Some(k) => Some(Attribute(k, value))
  }

  /** acc followed by the rest, or None when the rest failed. */
  function Then<T>(acc: seq<T>, rest: Option<seq<T>>): Option<seq<T>>
  {
    match rest
    case None => None
    case Some(r) => Some(acc + r)
  }

  lemma ThenNothing<T>(rest: Option<seq<T>>)
    ensures Then([], rest) == rest
  {
    if rest.Some? {
      assert [] + rest.value == rest.value;
    }
  }

  lemma ThenThen<T>(a: seq<T>, b: seq<T>, rest: Option<seq<T>>)
    ensures Then(a, Then(b, rest)) == Then(a + b, rest)
  {
    if rest.Some? {
      assert a + (b + rest.value) == a + b + rest.value;
    }
  }

  /** The attributes of the non-empty parts, in order; None when one of them throws. */
  function AttributesOf(parts: seq<string>, kinds: seq<AttribKind>): Option<seq<Attribute>>
    requires forall i :: 0 <= i < |parts| ==> parts[i] != ""
    decreases |parts|
  {
    if |parts| == 0 then Some([])
    else match AttributeOf(parts[0], kinds)
      case None => None
      case Some(a) => Then([a], AttributesOf(parts[1..], kinds))
  }

  /** AttributesOf from part i on, by its first part. */
  lemma AttributesStep(parts: seq<string>, i: nat, kinds: seq<AttribKind>)
    requires forall k :: 0 <= k < |parts| ==> parts[k] != ""
    requires i < |parts|
    ensures AttributesOf(parts[i..], kinds) ==
      match AttributeOf(parts[i], kinds)
      case None => None
      case Some(a) => Then([a], AttributesOf(parts[i + 1..], kinds))
  {
    assert parts[i..][0] == parts[i] && parts[i..][1..] == parts[i + 1..];
  }

  /** The attribute text split on '|', empty parts dropped, each part read as an attribute. */
  function ParseAttributes(text: string, kinds: seq<AttribKind>): Option<seq<Attribute>>
  {
    AttributesOf(NonEmpty(Split(text, '|')), kinds)
  }

  /**
   * A "key=value" part with a single '=' reads as the value under the kind
   * registered for the key, and throws exactly when no kind has that key.
   */
  lemma AttributeOfPair(k: string, v: string, kinds: seq<AttribKind>)
    requires '=' !in k && '=' !in v
    ensures AttributeOf(k + "=" + v, kinds).Some? <==> exists kind :: kind in kinds && Key(kind) == k
    ensures AttributeOf(k + "=" + v, kinds).Some? ==>
      var a := AttributeOf(k + "=" + v, kinds).value;
      a.kind in kinds && Key(a.kind) == k && a.value == v
  {
    SplitAround(k, '=', v);
    SplitWithout(k, '=');
    SplitWithout(v, '=');
  }

  /**
   * A part without '=' reads as its first character for the key and the rest
   * for the value, and throws exactly when no kind has that one-letter key.
   */
  lemma AttributeOfBare(part: string, kinds: seq<AttribKind>)
    requires part != "" && '=' !in part
    ensures AttributeOf(part, kinds).Some? <==> exists kind :: kind in kinds && Key(kind) == [part[0]]
    ensures AttributeOf(part, kinds).Some? ==>
      var a := AttributeOf(part, kinds).value;
      a.kind in kinds && Key(a.kind) == [part[0]] && a.value == part[1..]
  {
    SplitWithout(part, '=');
  }

  /** A part with two or more '=' does not follow the key=value form: FormatException. */
  lemma AttributeOfTwoEquals(x: string, y: string, z: string, kinds: seq<AttribKind>)
    ensures AttributeOf(x + "=" + y + "=" + z, kinds).None?
  {
    SplitAround(x, '=', y + "=" + z);
    SplitAround(y, '=', z);
    assert x + "=" + y + "=" + z == x + ['='] + (y + ['='] + z);
  }

  /**
   * Parts joined with '|' read back as the attributes of the non-empty parts,
   * in order: empty parts between the bars are skipped.
   */
  lemma ParseAttributesOfJoin(parts: seq<string>, kinds: seq<AttribKind>)
    requires |parts| > 0 && forall i :: 0 <= i < |parts| ==> '|' !in parts[i]
    ensures ParseAttributes(Join(parts, "|"), kinds) == AttributesOf(NonEmpty(parts), kinds)
  {
    JoinSplit(parts, '|');
  }

  /**
   * Registered "key=value" parts read as one attribute each, in order, every
   * one holding its part's kind and value.
   */
  lemma {:induction false} AttributesOfPairs(parts: seq<string>, ks: seq<string>, vs: seq<string>, kinds: seq<AttribKind>)
    requires |parts| == |ks| == |vs|
    requires forall i :: 0 <= i < |parts| ==> parts[i] == ks[i] + "=" + vs[i] && '=' !in ks[i] && '=' !in vs[i]
    requires forall i :: 0 <= i < |ks| ==> exists kind :: kind in kinds && Key(kind) == ks[i]
    ensures forall i :: 0 <= i < |parts| ==> parts[i] != ""
    ensures AttributesOf(parts, kinds).Some?
    ensures var r := AttributesOf(parts, kinds).value;
      |r| == |parts| && forall i :: 0 <= i < |r| ==> Key(r[i].kind) == ks[i] && r[i].value == vs[i]
    decreases |parts|
  {
    assert forall i :: 0 <= i < |parts| ==> |parts[i]| > 0 by {
      forall i | 0 <= i < |parts| ensures |parts[i]| > 0 {
        assert |ks[i] + "=" + vs[i]| == |ks[i]| + 1 + |vs[i]|;
      }
    }
    if |parts| > 0 {
      AttributeOfPair(ks[0], vs[0], kinds);
      AttributesOfPairs(parts[1..], ks[1..], vs[1..], kinds);
    }
  }

  /** The placeholder token of a match, or None when its attribute text throws. */
  function Placeholder(m: Match, types: seq<TokenType>, kinds: seq<AttribKind>): Option<TokenSpec>
  {
    match ParseAttributes(m.attributeText, kinds)
    case None => None
    case Some(attrs) => Some(TokenSpec(TypeFor(types, m.typeKey), attrs, Some(m.typeKey)))
  }

  /**
   * The tokens GetTokens yields from position i on, with the matches ms still
   * to come and the freetext since prev pending. A match before i is never
   * reached; after a match the scan resumes one past its end. read gives
   * the placeholder token of a match.
   */
  function Pieces(content: string, ms: seq<Match>, i: int, prev: int, read: Match -> Option<TokenSpec>): Option<seq<TokenSpec>>
    requires Matches(content, ms) && 0 <= prev <= i && prev <= |content|
    decreases |ms|
  {
    if |ms| == 0 then Some(if i < |content| then [Free(content[i..])] else [])
    else if ms[0].index < i then Some([])
    else
      match read(ms[0])
      case None => None
      case Some(t) => Then([Free(content[prev..ms[0].index]), t], Pieces(content, ms[1..], End(ms[0]) + 1, End(ms[0]), read))
  }

  /** Matches with at least one character between them. */
  predicate Spaced(ms: seq<Match>)
  {
    forall j, k :: 0 <= j < k < |ms| ==> End(ms[j]) < ms[k].index
  }

  /** Where the freetext before match k starts: prev for the first, the end of the previous match after it. */
  function Pending(ms: seq<Match>, k: int, prev: int): int
    requires 0 <= k < |ms|
  {
    if k == 0 then prev else End(ms[k - 1])
  }

  /** Where the scan resumes after the last match: one past its end. */
  function ResumeAt(ms: seq<Match>, i: int): int
  {
    if |ms| == 0 then i else End(ms[|ms| - 1]) + 1
  }

  /** Tokens 2k and 2k + 1 of ts are match k's pending freetext and its placeholder. */
  predicate PairAt(content: string, ms: seq<Match>, prev: int, read: Match -> Option<TokenSpec>, ts: seq<TokenSpec>, k: int)
    requires Matches(content, ms) && 0 <= k < |ms|
  {
    && 0 <= Pending(ms, k, prev) <= ms[k].index
    && 2 * k + 1 < |ts|
    && ts[2 * k] == Free(content[Pending(ms, k, prev)..ms[k].index])
    && read(ms[k]).Some? && ts[2 * k + 1] == read(ms[k]).value
  }

  /** A pair of the rest of the tokens is a pair of the tokens after the first two. */
  lemma PairShift(content: string, ms: seq<Match>, prev: int, read: Match -> Option<TokenSpec>, ts: seq<TokenSpec>, k: int)
    requires Matches(content, ms) && 0 < k < |ms| && |ts| >= 2
    requires Matches(content, ms[1..]) && PairAt(content, ms[1..], End(ms[0]), read, ts[2..], k - 1)
    ensures PairAt(content, ms, prev, read, ts, k)
  {
    var j := k - 1;
    assert ms[k] == ms[1..][j];
    assert Pending(ms, k, prev) == Pending(ms[1..], j, End(ms[0]));
    assert ts[2..][2 * j] == ts[2 * k];
    assert ts[2..][2 * j + 1] == ts[2 * k + 1];
  }

  /** What the scan yields over spaced matches: a pair per match, then the trailing freetext if any is left. */
  predicate Emits(content: string, ms: seq<Match>, i: int, prev: int, read: Match -> Option<TokenSpec>)
    requires Matches(content, ms) && 0 <= prev <= i && prev <= |content|
  {
    var r := Pieces(content, ms, i, prev, read);
    && r.Some?
    && |r.value| == 2 * |ms| + (if ResumeAt(ms, i) < |content| then 1 else 0)
    && (forall k :: 0 <= k < |ms| ==> PairAt(content, ms, prev, read, r.value, k))
    && (ResumeAt(ms, i) < |content| ==> 0 <= ResumeAt(ms, i) && r.value[2 * |ms|] == Free(content[ResumeAt(ms, i)..]))
  }

  /** The matches after the first are spaced and read as well. */
  lemma SpacedRest(content: string, ms: seq<Match>, read: Match -> Option<TokenSpec>)
    requires Matches(content, ms) && Spaced(ms) && |ms| > 0
    requires forall k :: 0 <= k < |ms| ==> read(ms[k]).Some?
    ensures Matches(content, ms[1..]) && Spaced(ms[1..])
    ensures forall k :: 0 <= k < |ms| - 1 ==> read(ms[1..][k]).Some?
    ensures |ms| > 1 ==> End(ms[0]) + 1 <= ms[1..][0].index
  {
    var tail := ms[1..];
    MatchesRest(content, ms, 1);
    forall j, k | 0 <= j < k < |tail| ensures End(tail[j]) < tail[k].index {
      assert tail[j] == ms[j + 1] && tail[k] == ms[k + 1];
    }
    forall k | 0 <= k < |tail| ensures read(tail[k]).Some? {
      assert tail[k] == ms[k + 1];
    }
    if |tail| > 0 {
      assert tail[0] == ms[1];
    }
  }

  /** The first match's pair put before what the rest of the matches yield. */
  lemma EmitsStep(content: string, ms: seq<Match>, i: int, prev: int, read: Match -> Option<TokenSpec>)
    requires Matches(content, ms) && 0 <= prev <= i && prev <= |content|
    requires |ms| > 0 && i <= ms[0].index && read(ms[0]).Some?
    requires Matches(content, ms[1..]) && Emits(content, ms[1..], End(ms[0]) + 1, End(ms[0]), read)
    ensures Emits(content, ms, i, prev, read)
  {
    var m := ms[0];
    var tail := ms[1..];
    var rest := Pieces(content, tail, End(m) + 1, End(m), read).value;
    var r := Pieces(content, ms, i, prev, read).value;
    assert r == [Free(content[prev..m.index]), read(m).value] + rest;
    assert r[2..] == rest;
    assert ResumeAt(ms, i) == ResumeAt(tail, End(m) + 1);
    forall k | 0 <= k < |ms| ensures PairAt(content, ms, prev, read, r, k) {
      if k > 0 {
        PairShift(content, ms, prev, read, r, k);
      }
    }
  }

  /**
   * With spaced matches that all read, every match yields the freetext since
   * the previous match's end followed by its placeholder, and a trailing
   * freetext starts one past the last match's end: the character right after
   * each placeholder is in no token.
   */
  lemma {:induction false} SpacedAllEmitted(content: string, ms: seq<Match>, i: int, prev: int, read: Match -> Option<TokenSpec>)
    requires Matches(content, ms) && 0 <= prev <= i && prev <= |content|
    requires Spaced(ms) && (|ms| > 0 ==> i <= ms[0].index)
    requires forall k :: 0 <= k < |ms| ==> read(ms[k]).Some?
    ensures Emits(content, ms, i, prev, read)
    decreases |ms|
  {
    if |ms| > 0 {
      SpacedRest(content, ms, read);
      SpacedAllEmitted(content, ms[1..], End(ms[0]) + 1, End(ms[0]), read);
      EmitsStep(content, ms, i, prev, read);
    }
  }

  /** Without placeholders the whole content is one freetext token (none for empty content). */
  lemma NoPlaceholders(content: string, read: Match -> Option<TokenSpec>)
    ensures Pieces(content, [], 0, 0, read) == Some(if |content| > 0 then [Free(content)] else [])
  {
    assert content[0..] == content;
  }

  /**
   * A placeholder right after the previous one is never reached, and the scan
   * then runs to the end: nothing after the first of the two is yielded.
   */
  lemma AdjacentPlaceholderLost(content: string, ms: seq<Match>, read: Match -> Option<TokenSpec>)
    requires Matches(content, ms) && |ms| >= 2 && ms[1].index == End(ms[0])
    requires read(ms[0]).Some?
    ensures Pieces(content, ms, 0, 0, read) == Some([Free(content[..ms[0].index]), read(ms[0]).value])
  {
    MatchesRest(content, ms, 1);
    assert ms[1..][0] == ms[1];
    assert [Free(content[..ms[0].index]), read(ms[0]).value] + [] == [Free(content[..ms[0].index]), read(ms[0]).value];
  }

  // ---------------------------------------------------------------------------
  // The loops of GetTokens
  // ---------------------------------------------------------------------------

  /** The type lookup: a loop keeping the last matching non-dynamic type, then the first dynamic one. */
  method FindTokenType(types: seq<TokenType>, key: string) returns (found: Option<TokenType>)
    ensures found == TypeFor(types, key)
  {
    found := None;
    var i := 0;
    while i < |types|
      invariant 0 <= i <= |types|
      invariant found == LastStatic(types[..i], key)
    {
      assert types[..i + 1][..i] == types[..i];
      if types[i].key == key && !types[i].isDynamic {
        found := Some(types[i]);
      }
      i := i + 1;
    }
    assert types[..i] == types;
    if found.None? {
      i := 0;
      while i < |types|
        invariant 0 <= i <= |types|
        invariant FirstDynamic(types) == FirstDynamic(types[i..])
      {
        assert types[i..][1..] == types[i + 1..];
        if types[i].isDynamic {
          return Some(types[i]);
        }
        i := i + 1;
      }
    }
  }

  /** The attribute lookup: the first registered kind with the key, or the FormatException. */
  method FindAttribute(key: string, value: string, kinds: seq<AttribKind>) returns (r: Option<Attribute>)
    ensures r == (match KindFor(kinds, key) case None => None case Some(k) => Some(Attribute(k, value)))
  {
    var i := 0;
    while i < |kinds|
      invariant 0 <= i <= |kinds|
      invariant KindFor(kinds, key) == KindFor(kinds[i..], key)
    {
      assert kinds[i..][1..] == kinds[i + 1..];
      if Key(kinds[i]) == key {
        return Some(Attribute(kinds[i], value));
      }
      i := i + 1;
    }
    return None;
  }

  /** One part of the attribute text read as an attribute. */
  method ReadAttribute(part: string, kinds: seq<AttribKind>) returns (r: Option<Attribute>)
    requires part != ""
    ensures r == AttributeOf(part, kinds)
  {
    var keyValue := Split(part, '=');
    var key, value;
    if |keyValue| == 2 {
      key, value := keyValue[0], keyValue[1];
    } else if |keyValue| == 1 {
      key, value := [part[0]], part[1..];
    } else {
      return None;
    }
    r := FindAttribute(key, value, kinds);
  }

  /** The attribute loop of GetTokens over the text of one match. */
  method ReadAttributes(text: string, kinds: seq<AttribKind>) returns (r: Option<seq<Attribute>>)
    ensures r == ParseAttributes(text, kinds)
  {
    var parts := NonEmpty(Split(text, '|'));
    var attributes: seq<Attribute> := [];
    ThenNothing(AttributesOf(parts, kinds));
    var i := 0;
    while i < |parts|
      invariant 0 <= i <= |parts|
      invariant AttributesOf(parts, kinds) == Then(attributes, AttributesOf(parts[i..], kinds))
    {
      AttributesStep(parts, i, kinds);
      var a := ReadAttribute(parts[i], kinds);
      if a.None? {
        return None;
      }
      ThenThen(attributes, [a.value], AttributesOf(parts[i + 1..], kinds));
      attributes := attributes + [a.value];
      i := i + 1;
    }
    assert attributes + [] == attributes;
    return Some(attributes);
  }

  /** The placeholder token of a match: its type looked up, its attribute text read. */
  method ReadPlaceholder(m: Match, types: seq<TokenType>, kinds: seq<AttribKind>) returns (r: Option<TokenSpec>)
    ensures r == Placeholder(m, types, kinds)
  {
    var found := FindTokenType(types, m.typeKey);
    var attributes := ReadAttributes(m.attributeText, kinds);
    if attributes.None? {
      return None;
    }
    return Some(TokenSpec(found, attributes.value, Some(m.typeKey)));
  }

  lemma MatchesRest(content: string, ms: seq<Match>, n: int)
    requires Matches(content, ms) && 0 <= n <= |ms|
    ensures Matches(content, ms[n..])
  {
    var rest := ms[n..];
    forall k | 0 < k < |rest| ensures End(rest[k - 1]) <= rest[k].index {
      assert rest[k - 1] == ms[n + k - 1] && rest[k] == ms[n + k];
    }
  }

  /** A position that is not the next match's start adds nothing. */
  lemma PiecesSkip(content: string, ms: seq<Match>, i: int, prev: int, read: Match -> Option<TokenSpec>)
    requires Matches(content, ms) && 0 <= prev <= i && prev <= |content|
    requires |ms| > 0 && ms[0].index != i
    ensures Pieces(content, ms, i, prev, read) == Pieces(content, ms, i + 1, prev, read)
  {
  }

  /** A match at the position yields the pending freetext and its placeholder, and the scan resumes one past its end. */
  lemma PiecesTake(content: string, ms: seq<Match>, i: int, prev: int, read: Match -> Option<TokenSpec>, t: TokenSpec)
    requires Matches(content, ms) && 0 <= prev <= i && prev <= |content|
    requires |ms| > 0 && ms[0].index == i && read(ms[0]) == Some(t)
    ensures Matches(content, ms[1..]) && End(ms[0]) <= |content|
    ensures Pieces(content, ms, i, prev, read)
         == Then([Free(content[prev..i]), t], Pieces(content, ms[1..], End(ms[0]) + 1, End(ms[0]), read))
  {
    MatchesRest(content, ms, 1);
  }

  /** The loop of GetTokens at a position where match n does not start: nothing is read there. */
  lemma SkipAt(content: string, whole: Option<seq<TokenSpec>>, tokens: seq<TokenSpec>, ms: seq<Match>, n: int, i: int, prev: int,
               read: Match -> Option<TokenSpec>, i': int)
    requires 0 <= n < |ms| && Matches(content, ms[n..]) && 0 <= prev <= i && prev <= |content|
    requires ms[n].index != i && whole == Then(tokens, Pieces(content, ms[n..], i, prev, read))
    requires i' == i + 1
    ensures whole == Then(tokens, Pieces(content, ms[n..], i', prev, read))
  {
    PiecesSkip(content, ms[n..], i, prev, read);
  }

  /** The loop of GetTokens at match n when its placeholder does not read: the whole reading gives nothing. */
  lemma RefusedAt(content: string, ms: seq<Match>, n: int, i: int, prev: int, read: Match -> Option<TokenSpec>)
    requires 0 <= n < |ms| && Matches(content, ms[n..]) && 0 <= prev <= i && prev <= |content|
    requires ms[n].index == i && read(ms[n]).None?
    ensures Pieces(content, ms[n..], i, prev, read) == None
  {
    assert ms[n..][0] == ms[n];
  }

  /** The loop of GetTokens past match n: the free text before it and its token join what was read. */
  lemma TakeAt(content: string, whole: Option<seq<TokenSpec>>, tokens: seq<TokenSpec>, ms: seq<Match>, n: int, i: int, prev: int,
               read: Match -> Option<TokenSpec>, t: TokenSpec, tokens': seq<TokenSpec>, n': int, i': int, prev': int)
    requires 0 <= n < |ms| && Matches(content, ms[n..]) && 0 <= prev <= i && prev <= |content|
    requires ms[n].index == i && read(ms[n]) == Some(t)
    requires whole == Then(tokens, Pieces(content, ms[n..], i, prev, read))
    requires tokens' == tokens + [Free(content[prev..i]), t] && n' == n + 1 && prev' == End(ms[n]) && i' == prev' + 1
    ensures 0 <= n' <= |ms| && Matches(content, ms[n'..]) && 0 <= prev' <= i' && prev' <= |content|
    ensures whole == Then(tokens', Pieces(content, ms[n'..], i', prev', read))
  {
    var rest := ms[n..];
    assert rest[0] == ms[n] && rest[1..] == ms[n'..];
    PiecesTake(content, rest, i, prev, read, t);
    ThenThen(tokens, [Free(content[prev..i]), t], Pieces(content, rest[1..], i', prev', read));
  }

  /** Past the end of the content nothing more is yielded. */
  lemma PiecesDone(content: string, ms: seq<Match>, i: int, prev: int, read: Match -> Option<TokenSpec>)
    requires Matches(content, ms) && 0 <= prev <= i && prev <= |content| && |content| <= i
    ensures Pieces(content, ms, i, prev, read) == Some([])
  {
  }

  /** GetTokens over the raw content, the matches of the placeholder pattern given in order. */
  method GetTokens(t: Template, ms: seq<Match>, types: seq<TokenType>, kinds: seq<AttribKind>) returns (r: Option<seq<TokenSpec>>)
    requires Matches(t.contentRaw, ms)
    ensures r == Pieces(t.contentRaw, ms, 0, 0, m => Placeholder(m, types, kinds))
  {
    ghost var read := m => Placeholder(m, types, kinds);
    var content := t.contentRaw;
    ghost var whole := Pieces(content, ms, 0, 0, read);
    var tokens: seq<TokenSpec> := [];
    var nextMatch := 0;
    var previous := 0;
    var i := 0;
    ThenNothing(whole);
    assert ms[0..] == ms;
    while i < |content|
      invariant 0 <= nextMatch <= |ms|
      invariant 0 <= previous <= i && previous <= |content|
      invariant Matches(content, ms[nextMatch..])
      invariant whole == Then(tokens, Pieces(content, ms[nextMatch..], i, previous, read))
      decreases |content| - i
    {
      if nextMatch == |ms| {
        return Some(tokens + [Free(content[i..])]);
      }
      var m := ms[nextMatch];
      if m.index != i {
        i := i + 1;
        SkipAt(content, whole, tokens, ms, nextMatch, i - 1, previous, read, i);
        continue;
      }
      var free := Free(content[previous..i]);
      var placeholder := ReadPlaceholder(m, types, kinds);
      assert read(m) == placeholder;
      if placeholder.None? {
        RefusedAt(content, ms, nextMatch, i, previous, read);
        return None;
      }
      ghost var tokens0, n0, i0, previous0 := tokens, nextMatch, i, previous;
      tokens := tokens + [free, placeholder.value];
      i := i + m.length;
      nextMatch := nextMatch + 1;
      previous := i;
      i := i + 1;
      TakeAt(content, whole, tokens0, ms, n0, i0, previous0, read, placeholder.value, tokens, nextMatch, i, previous);
    }
    PiecesDone(content, ms[nextMatch..], i, previous, read);
    assert tokens + [] == tokens;
    return Some(tokens);
  }
}
