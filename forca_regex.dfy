/**
 * The regex front end of `forcaRegex`: `createPattern` (src/forcaRegex.cpp), which turns a
 * PHP-style `/expression/flags` or `#expression#flags` into what `pcre2_compile` takes, and
 * the `RegexResult` container (include/forcaRegex.h). `pcre2_compile` itself is a
 * parameter: only whether it fails, and with which code and offset, is observed.
 */
module ForcaRegex {
  import opened Wrappers
  import opened Search
  import opened ForcaStrings

  // ---------------------------------------------------------------------------
  // Flag letters and PCRE2 option bits
  // ---------------------------------------------------------------------------

  /** PCRE2 option bits, with the values of the PCRE2 10.x header `pcre2.h`. */
  const PCRE2_CASELESS: bv32 := 0x0000_0008
  const PCRE2_MULTILINE: bv32 := 0x0000_0400
  const PCRE2_DOTALL: bv32 := 0x0000_0020
  const PCRE2_UTF: bv32 := 0x0008_0000
  const PCRE2_EXTENDED: bv32 := 0x0000_0080
  const PCRE2_UNGREEDY: bv32 := 0x0004_0000

  /** `PHP_PCRE2_FLAG_MAP`: the flag letters i, m, s, u, x and U. */
  const FLAG_MAP: map<byte, bv32> := map[
    105 := PCRE2_CASELESS,
    109 := PCRE2_MULTILINE,
    115 := PCRE2_DOTALL,
    117 := PCRE2_UTF,
    120 := PCRE2_EXTENDED,
    85 := PCRE2_UNGREEDY
  ]

  /** The option a flag letter adds; other bytes add nothing. */
  function FlagBit(c: byte): bv32
  {
    if c == 105 then PCRE2_CASELESS
    else if c == 109 then PCRE2_MULTILINE
    else if c == 115 then PCRE2_DOTALL
    else if c == 117 then PCRE2_UTF
    else if c == 120 then PCRE2_EXTENDED
    else if c == 85 then PCRE2_UNGREEDY
    else 0
  }

  /** `FlagBit` is the flag map's lookup: a letter is in the map iff it adds an option, and adds the one mapped. */
  lemma FlagBitIsLookup(c: byte)
    ensures c in FLAG_MAP <==> FlagBit(c) != 0
    ensures c in FLAG_MAP ==> FLAG_MAP[c] == FlagBit(c)
  {
  }

  /** Reference definition of the flag loop: the options of each letter ORed in, left to right. */
  function FoldFlags(flags: Bytes): bv32
  {
    if |flags| == 0 then 0 else FoldFlags(flags[..|flags| - 1]) | FlagBit(flags[|flags| - 1])
  }

  /** The options for the six letters, each present or not. */
  function OptionBits(i: bool, m: bool, s: bool, u: bool, x: bool, ungreedy: bool): bv32
  {
    (if i then PCRE2_CASELESS else 0) | (if m then PCRE2_MULTILINE else 0) |
    (if s then PCRE2_DOTALL else 0) | (if u then PCRE2_UTF else 0) |
    (if x then PCRE2_EXTENDED else 0) | (if ungreedy then PCRE2_UNGREEDY else 0)
  }

  /** An independent definition: an option is on exactly when its letter occurs. */
  function OptionsOf(flags: Bytes): bv32
  {
    OptionBits(105 in flags, 109 in flags, 115 in flags, 117 in flags, 120 in flags, 85 in flags)
  }

  /** One more letter adds its option to those already present. */
  lemma OptionBitsAdd(i: bool, m: bool, s: bool, u: bool, x: bool, ungreedy: bool, c: byte)
    ensures OptionBits(i || c == 105, m || c == 109, s || c == 115, u || c == 117, x || c == 120, ungreedy || c == 85)
         == OptionBits(i, m, s, u, x, ungreedy) | FlagBit(c)
  {
    if FlagBit(c) == 0 {
      assert c != 105 && c != 109 && c != 115 && c != 117 && c != 120 && c != 85;
    }
  }

  /** The loop computes the options of the letters present, whatever their order or number. */
  lemma {:induction false} FoldFlagsIsOptionsOf(flags: Bytes)
    ensures FoldFlags(flags) == OptionsOf(flags)
  {
    if |flags| > 0 {
      FoldFlagsIsOptionsOf(flags[..|flags| - 1]);
      OptionsOfSnoc(flags);
    }
  }

  /** The options of a text are those of all but its last byte, with the last byte's added. */
  lemma OptionsOfSnoc(flags: Bytes)
    requires |flags| > 0
    ensures OptionsOf(flags) == OptionsOf(flags[..|flags| - 1]) | FlagBit(flags[|flags| - 1])
  {
    var init, c := flags[..|flags| - 1], flags[|flags| - 1];
    LastLetter(flags);
    OptionBitsAdd(105 in init, 109 in init, 115 in init, 117 in init, 120 in init, 85 in init, c);
  }

  /** A flag letter occurs in a non-empty text iff it occurs before the last byte or is the last byte. */
  lemma LastLetter(flags: Bytes)
    requires |flags| > 0
    ensures var init, c := flags[..|flags| - 1], flags[|flags| - 1];
      (105 in flags <==> 105 in init || c == 105) && (109 in flags <==> 109 in init || c == 109) &&
      (115 in flags <==> 115 in init || c == 115) && (117 in flags <==> 117 in init || c == 117) &&
      (120 in flags <==> 120 in init || c == 120) && (85 in flags <==> 85 in init || c == 85)
  {
    assert flags == flags[..|flags| - 1] + [flags[|flags| - 1]];
  }

  /** Reordering or repeating flag letters, or adding unknown ones, gives the same options. */
  lemma FlagsBySet(f: Bytes, g: Bytes)
    requires forall c :: c in FLAG_MAP ==> (c in f <==> c in g)
    ensures FoldFlags(f) == FoldFlags(g)
  {
    FoldFlagsIsOptionsOf(f);
    FoldFlagsIsOptionsOf(g);
    assert 105 in FLAG_MAP && 109 in FLAG_MAP && 115 in FLAG_MAP;
    assert 117 in FLAG_MAP && 120 in FLAG_MAP && 85 in FLAG_MAP;
    // The six letters' presence, compared at once.
    var bf := [105 in f, 109 in f, 115 in f, 117 in f, 120 in f, 85 in f];
    var bg := [105 in g, 109 in g, 115 in g, 117 in g, 120 in g, 85 in g];
    assert bf == bg;
  }

  /** Each option bit is set exactly when its letter is among the flags. */
  lemma FlagBitsExact(flags: Bytes)
    ensures (FoldFlags(flags) & PCRE2_CASELESS != 0) <==> 105 in flags
    ensures (FoldFlags(flags) & PCRE2_MULTILINE != 0) <==> 109 in flags
    ensures (FoldFlags(flags) & PCRE2_DOTALL != 0) <==> 115 in flags
    ensures (FoldFlags(flags) & PCRE2_UTF != 0) <==> 117 in flags
    ensures (FoldFlags(flags) & PCRE2_EXTENDED != 0) <==> 120 in flags
    ensures (FoldFlags(flags) & PCRE2_UNGREEDY != 0) <==> 85 in flags
    ensures FoldFlags(flags) & !(PCRE2_CASELESS | PCRE2_MULTILINE | PCRE2_DOTALL |
      PCRE2_UTF | PCRE2_EXTENDED | PCRE2_UNGREEDY) == 0
  {
    FoldFlagsIsOptionsOf(flags);
  }

  // ---------------------------------------------------------------------------
  // createPattern
  // ---------------------------------------------------------------------------

  const SLASH: byte := 47
  const HASH: byte := 35

  /** The parts of `RegexPattern` that `createPattern` fills in before compiling. */
  datatype RegexPattern = RegexPattern(expression: Bytes, length: nat, options: bv32)

  /** What `pcre2_compile` reports: a compiled code, or an error code and offset. */
  datatype CompileOutcome = Compiled | CompileFailed(errorCode: int, errorOffset: nat)

  /** `std::invalid_argument` for a malformed pattern, `std::runtime_error` for a failed compile. */
  datatype RegexError = InvalidArgument | CompileError(errorCode: int, errorOffset: nat)

  /**
   * Reference definition of the checks on the trimmed pattern: at least three bytes, a
   * '/' or '#' first, and its last occurrence at index 2 or later. Yields the expression
   * and the flag letters.
   */
  function ParsePattern(t: Bytes): Result<(Bytes, Bytes), RegexError>
  {
    if |t| < 3 || (t[0] != SLASH && t[0] != HASH) then Err(InvalidArgument)
    else
      match FindLastOf(t, t[0])
      case None => Err(InvalidArgument)
      case Some(last) =>
        if last < 2 then Err(InvalidArgument) else Ok((t[1..last], t[last + 1..]))
  }

  /** What `createPattern` returns or throws, with `pcre2_compile` as `compile`. */
  function CreatePatternSpec(pattern: Bytes, compile: (Bytes, bv32) -> CompileOutcome)
    : Result<RegexPattern, RegexError>
  {
    match ParsePattern(TrimBoth(pattern))
    case Err(e) => Err(e)
    case Ok((expression, flags)) =>
      match compile(expression, FoldFlags(flags))
      case CompileFailed(code, offset) => Err(CompileError(code, offset))
      case Compiled => Ok(RegexPattern(expression, |expression|, FoldFlags(flags)))
  }

  predicate IsDelimiter(d: byte) { d == SLASH || d == HASH }

  /** An accepted pattern is a delimiter, a non-empty expression, the delimiter again, and flags free of it. */
  lemma ParseAccepted(t: Bytes)
    requires ParsePattern(t).Ok?
    ensures var (e, f) := ParsePattern(t).value;
      |e| >= 1 && IsDelimiter(t[0]) && t[0] !in f && t == [t[0]] + e + [t[0]] + f
  {
    var last := FindLastOf(t, t[0]).value;
    assert t == [t[0]] + t[1..last] + [t[last]] + t[last + 1..];
  }

  /** Conversely, every such shape is accepted and split back into its expression and flags. */
  lemma ParseBuilt(d: byte, e: Bytes, f: Bytes)
    requires IsDelimiter(d) && |e| >= 1 && d !in f
    ensures ParsePattern([d] + e + [d] + f) == Ok((e, f))
  {
    var t := [d] + e + [d] + f;
    var last := |e| + 1;
    assert t[last] == d;
    assert forall j :: last < j < |t| ==> t[j] == f[j - last - 1];
    assert FindLastOf(t, d) == Some(last);
    assert t[1..last] == e;
    assert t[last + 1..] == f;
  }

  /** Any input not of that shape is refused with `invalid_argument`. */
  lemma ParseRejected(t: Bytes)
    requires !(|t| >= 3 && IsDelimiter(t[0]) && t[0] in t[2..])
    ensures ParsePattern(t) == Err(InvalidArgument)
  {
    if |t| >= 3 && IsDelimiter(t[0]) {
      forall j | 2 <= j < |t| ensures t[j] != t[0] {
        assert t[2..][j - 2] == t[j];
      }
    }
  }

  /**
   * `createPattern`. The two trim loops are those of `trim`; the right-hand one reads
   * `cpypattern[length - 1]` before testing the length, so the pattern must hold a byte
   * that is not whitespace.
   */
  method CreatePattern(pattern: Bytes, compile: (Bytes, bv32) -> CompileOutcome)
    returns (r: Result<RegexPattern, RegexError>)
    requires HasNonSpace(pattern)
    ensures r == CreatePatternSpec(pattern, compile)
  {
    var cpypattern := Trim(pattern);
    var length := |cpypattern|;
    if length < 3 {
      return Err(InvalidArgument);
    }
    if cpypattern[0] != SLASH && cpypattern[0] != HASH {
      return Err(InvalidArgument);
    }
    var lastDelimiter := FindLastOf(cpypattern, cpypattern[0]);
    if lastDelimiter.None? || lastDelimiter.value < 2 {
      return Err(InvalidArgument);
    }
    var last := lastDelimiter.value;
    var expression := cpypattern[1..last];
    var expressionLength := last - 1;
    var flags := cpypattern[last + 1..];
    assert ParsePattern(cpypattern) == Ok((expression, flags));
    var options := FlagOptions(flags);
    var outcome := compile(expression, options);
    if outcome.CompileFailed? {
      return Err(CompileError(outcome.errorCode, outcome.errorOffset));
    }
    return Ok(RegexPattern(expression, expressionLength, options));
  }

  /**
   * The flag loop of `createPattern`: looks each letter up in the flag map and ORs in the
   * option found; `FlagBit` is that lookup (`FlagBitIsLookup`).
   */
  method FlagOptions(flags: Bytes) returns (options: bv32)
    ensures options == FoldFlags(flags)
  {
    options := 0;
    for i := 0 to |flags|
      invariant options == FoldFlags(flags[..i])
    {
      FoldFlagsStep(flags, i, options);
      options := options | FlagBit(flags[i]);
    }
    assert flags[..|flags|] == flags;
  }

  /** One more letter ORs its option into the fold of the letters before it. */
  lemma FoldFlagsStep(flags: Bytes, i: nat, before: bv32)
    requires i < |flags| && before == FoldFlags(flags[..i])
    ensures FoldFlags(flags[..i + 1]) == before | FlagBit(flags[i])
  {
    assert flags[..i + 1][..i] == flags[..i];
  }

  /** A pattern that `createPattern` returns has its expression's length and the options of its flags. */
  lemma CreatePatternResult(pattern: Bytes, compile: (Bytes, bv32) -> CompileOutcome)
    requires CreatePatternSpec(pattern, compile).Ok?
    ensures var p := CreatePatternSpec(pattern, compile).value;
      var t := TrimBoth(pattern);
      p.length == |p.expression| && compile(p.expression, p.options) == Compiled &&
      t == [t[0]] + p.expression + [t[0]] + ParsePattern(t).value.1 &&
      p.options == OptionsOf(ParsePattern(t).value.1)
  {
    var t := TrimBoth(pattern);
    ParseAccepted(t);
    FoldFlagsIsOptionsOf(ParsePattern(t).value.1);
  }

  // ---------------------------------------------------------------------------
  // RegexResult
  // ---------------------------------------------------------------------------

  /** `RegexStructData`: where a match starts and ends, and its text. */
  datatype RegexData = RegexData(start: nat, end: nat, text: Bytes)

  /** `RegexResult`: numbered groups, named groups and the lists of their keys. */
  class RegexResult {
    var numberGroups: seq<seq<RegexData>>
    var namedGroups: map<Bytes, seq<RegexData>>
    var intKeys: seq<int>
    var stringKeys: seq<Bytes>
    /** The public `match` flag. */
    var matched: bool

    /** `int_keys` lists the indices of the numbered groups, in order. */
    ghost predicate Valid()
      reads this
    {
      |intKeys| == |numberGroups| && forall i :: 0 <= i < |intKeys| ==> intKeys[i] == i
    }

    constructor()
      ensures Valid() && !matched
      ensures numberGroups == [] && namedGroups == map[] && intKeys == [] && stringKeys == []
    {
      numberGroups := [];
      namedGroups := map[];
      intKeys := [];
      stringKeys := [];
      matched := false;
    }

    /** `key_exist(int)`. */
    function KeyExistIndex(key: int): (r: bool)
      reads this
      ensures r <==> 0 <= key < |numberGroups|
    {
      key >= 0 && key < |numberGroups|
    }

    /** `key_exist(string)`: looks the key up after trimming it. */
    method KeyExistNamed(key: Bytes) returns (r: bool)
      requires HasNonSpace(key)
      ensures r <==> TrimBoth(key) in namedGroups
    {
      var newKey := Trim(key);
      r := newKey in namedGroups;
    }

    /** `get(int)`: the group, or a null pointer when the index is not a group. */
    function GetIndex(key: int): (r: Option<seq<RegexData>>)
      reads this
      ensures r.None? <==> !KeyExistIndex(key)
      ensures r.Some? ==> 0 <= key < |numberGroups| && r.value == numberGroups[key]
    {
      if KeyExistIndex(key) then Some(numberGroups[key]) else None
    }

    /** `get(string)`: the group under the trimmed key, or a null pointer. */
    method GetNamed(key: Bytes) returns (r: Option<seq<RegexData>>)
      requires HasNonSpace(key)
      ensures r.Some? <==> TrimBoth(key) in namedGroups
      ensures r.Some? ==> r.value == namedGroups[TrimBoth(key)]
    {
      var newKey := Trim(key);
      if newKey in namedGroups {
        r := Some(namedGroups[newKey]);
      } else {
        r := None;
      }
    }

    /**
     * `push` with an int key: appends to that group when it exists; otherwise opens a new
     * group at the end, whatever the key, and records its index in `int_keys`.
     */
    method PushIndex(start: nat, end: nat, text: Bytes, key: int)
      requires Valid()
      modifies this
      ensures Valid()
      ensures var data := RegexData(start, end, text);
        if 0 <= key < |old(numberGroups)| then
          numberGroups == old(numberGroups)[key := old(numberGroups)[key] + [data]] &&
          intKeys == old(intKeys)
        else
          numberGroups == old(numberGroups) + [[data]] &&
          intKeys == old(intKeys) + [|old(numberGroups)|]
      ensures namedGroups == old(namedGroups) && stringKeys == old(stringKeys) && matched == old(matched)
    {
      var data := RegexData(start, end, text);
      if KeyExistIndex(key) {
        numberGroups := numberGroups[key := numberGroups[key] + [data]];
      } else {
        numberGroups := numberGroups + [[data]];
        intKeys := intKeys + [|numberGroups| - 1];
      }
    }

    /**
     * `push` with a string key, as written: it trims the key to test whether the group
     * exists but then stores under the key as given. An existing group under the trimmed
     * key makes `operator[]` open a group under the untrimmed key; a missing one replaces
     * whatever the untrimmed key held and lists the untrimmed key again.
     */
    method PushNamed(start: nat, end: nat, text: Bytes, key: Bytes)
      requires HasNonSpace(key)
      modifies this
      ensures var data := RegexData(start, end, text);
        if TrimBoth(key) in old(namedGroups) then
          namedGroups == old(namedGroups)[key := (if key in old(namedGroups) then old(namedGroups)[key] else []) + [data]] &&
          stringKeys == old(stringKeys)
        else
          namedGroups == old(namedGroups)[key := [data]] &&
          stringKeys == old(stringKeys) + [key]
      ensures numberGroups == old(numberGroups) && intKeys == old(intKeys) && matched == old(matched)
    {
      var newKey := Trim(key);
      var data := RegexData(start, end, text);
      var present := KeyExistNamed(key);
      if present {
        var group := if key in namedGroups then namedGroups[key] else [];
        namedGroups := namedGroups[key := group + [data]];
      } else {
        namedGroups := namedGroups[key := [data]];
        stringKeys := stringKeys + [key];
      }
    }

    /** Named groups are stored under trimmed keys, each listed once in `string_keys`. */
    ghost predicate NamedValid()
      reads this
    {
      NamedKeysValid(namedGroups, stringKeys)
    }

    /**
     * `push` with a string key, storing under the trimmed key it computes. A later `get`
     * with the same key then finds the group, ending with the pushed data.
     */
    method PushNamedTrimmed(start: nat, end: nat, text: Bytes, key: Bytes)
      requires HasNonSpace(key) && NamedValid()
      modifies this
      ensures NamedValid()
      ensures var data := RegexData(start, end, text);
        var k := TrimBoth(key);
        k in namedGroups &&
        namedGroups == old(namedGroups)[k := (if k in old(namedGroups) then old(namedGroups)[k] else []) + [data]] &&
        stringKeys == if k in old(namedGroups) then old(stringKeys) else old(stringKeys) + [k]
      ensures numberGroups == old(numberGroups) && intKeys == old(intKeys) && matched == old(matched)
    {
      var newKey := Trim(key);
      var data := RegexData(start, end, text);
      var group := (if newKey in namedGroups then namedGroups[newKey] else []) + [data];
      NamedKeysValidPush(namedGroups, stringKeys, newKey, group);
      if newKey !in namedGroups {
        stringKeys := stringKeys + [newKey];
      }
      namedGroups := namedGroups[newKey := group];
    }
  }

  /** A key with no whitespace at either end, as `trim` leaves it. */
  predicate IsTrimmedKey(k: Bytes)
  {
    |k| > 0 && !IsSpace(k[0]) && !IsSpace(k[|k| - 1])
  }

  /** Named groups are stored under trimmed keys, each listed once in the list of keys. */
  ghost predicate NamedKeysValid(groups: map<Bytes, seq<RegexData>>, keys: seq<Bytes>)
  {
    (forall k :: k in groups ==> IsTrimmedKey(k)) &&
    (forall k :: k in groups <==> k in keys) &&
    (forall i, j :: 0 <= i < j < |keys| ==> keys[i] != keys[j])
  }

  /** Storing under a trimmed key, and listing it when it is new, keeps the keys valid. */
  lemma NamedKeysValidPush(groups: map<Bytes, seq<RegexData>>, keys: seq<Bytes>, k: Bytes, g: seq<RegexData>)
    requires NamedKeysValid(groups, keys) && IsTrimmedKey(k)
    ensures NamedKeysValid(groups[k := g], if k in groups then keys else keys + [k])
  {
    var keys' := if k in groups then keys else keys + [k];
    forall i, j | 0 <= i < j < |keys'| ensures keys'[i] != keys'[j] {
      if k !in groups && j == |keys| {
        assert keys[i] in groups;
      }
    }
  }

  /** The key " a" trims to "a". */
  lemma SpaceAKey()
    ensures HasNonSpace([32, 97]) && TrimBoth([32, 97]) == [97]
  {
    var key: Bytes := [32, 97];
    assert !IsSpace(key[1]);
    assert TrimLeft(key) == [97] by {
      assert key[1..] == [97];
    }
  }

  /** A group pushed under " a" is not found by `get(" a")` afterwards: the data is lost. */
  method PushedGroupLost() returns (found: Option<seq<RegexData>>)
    ensures found.None?
  {
    var result := new RegexResult();
    SpaceAKey();
    result.PushNamed(0, 1, [97], [32, 97]);
    found := result.GetNamed([32, 97]);
  }

  /**
   * Pushing twice under " a": each push misses the trimmed key, so " a" is listed twice in
   * `string_keys` and the second group replaces the first.
   */
  method PushedKeyListedTwice() returns (keys: seq<Bytes>, group: seq<RegexData>)
    ensures keys == [[32, 97], [32, 97]] && group == [RegexData(2, 3, [98])]
  {
    var result := new RegexResult();
    SpaceAKey();
    result.PushNamed(0, 1, [97], [32, 97]);
    assert [97] !in result.namedGroups;
    result.PushNamed(2, 3, [98], [32, 97]);
    keys := result.stringKeys;
    group := result.namedGroups[[32, 97]];
  }

  /** With the trimmed key, the same sequence finds the group holding the pushed data. */
  method PushedGroupFound() returns (found: Option<seq<RegexData>>)
    ensures found == Some([RegexData(0, 1, [97])])
  {
    var result := new RegexResult();
    SpaceAKey();
    assert NamedKeysValid(map[], []);
    assert [97] !in result.namedGroups;
    result.PushNamedTrimmed(0, 1, [97], [32, 97]);
    assert [] + [RegexData(0, 1, [97])] == [RegexData(0, 1, [97])];
    assert result.namedGroups[[97]] == [RegexData(0, 1, [97])];
    found := result.GetNamed([32, 97]);
  }
}
