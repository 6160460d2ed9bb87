/**
 * The byte-string utilities of `forcaStrings` (src/forcaStrings.cpp). Every function of
 * that file works on the bytes of a `std::string` and copies its argument before changing
 * it, so each is a method over a local `seq<byte>`, proved against a reference function.
 * Character classes are those of the "C" locale.
 */
module ForcaStrings {
  import opened Wrappers
  import opened Search

  type byte = b: int | 0 <= b < 256
  type Bytes = seq<byte>

  /** The bytes of `" \t\n\r\v\f"`; also exactly what `isspace` accepts in the "C" locale. */
  const WHITESPACE: set<byte> := {32, 9, 10, 13, 11, 12}

  predicate IsSpace(b: byte) { b in WHITESPACE }

  predicate NoSpace(s: Bytes) { forall i :: 0 <= i < |s| ==> !IsSpace(s[i]) }

  predicate HasNonSpace(s: Bytes) { exists i :: 0 <= i < |s| && !IsSpace(s[i]) }

  /** The bytes of an ASCII literal. */
  function Ascii(s: string): (r: Bytes)
    requires forall i :: 0 <= i < |s| ==> s[i] as int < 128
    ensures |r| == |s| && forall i :: 0 <= i < |s| ==> r[i] == s[i] as int
  {
    seq(|s|, i requires 0 <= i < |s| => s[i] as int)
  }

  // ---------------------------------------------------------------------------
  // removeSpaces
  // ---------------------------------------------------------------------------

  /** Reference definition: `s` with its whitespace bytes deleted, the others kept in order. */
  function Strip(s: Bytes): (r: Bytes)
    ensures NoSpace(r) && |r| <= |s|
  {
    if s == [] then [] else (if IsSpace(s[0]) then [] else [s[0]]) + Strip(s[1..])
  }

  lemma {:induction false} StripAppend(a: Bytes, b: Bytes)
    ensures Strip(a + b) == Strip(a) + Strip(b)
  {
    if a != [] {
      assert (a + b)[0] == a[0] && (a + b)[1..] == a[1..] + b;
      StripAppend(a[1..], b);
      calc {
        Strip(a + b);
        (if IsSpace(a[0]) then [] else [a[0]]) + Strip(a[1..] + b);
        (if IsSpace(a[0]) then [] else [a[0]]) + (Strip(a[1..]) + Strip(b));
      }
    } else {
      assert a + b == b;
    }
  }

  /** Deleting one whitespace byte does not change what `Strip` keeps. */
  lemma StripErase(s: Bytes, i: nat)
    requires i < |s| && IsSpace(s[i])
    ensures Strip(s[..i] + s[i + 1..]) == Strip(s)
  {
    var tail := s[i..];
    assert tail[0] == s[i] && tail[1..] == s[i + 1..];
    assert s[..i] + tail == s;
    calc {
      Strip(s[..i] + s[i + 1..]);
      { StripAppend(s[..i], s[i + 1..]); }
      Strip(s[..i]) + Strip(s[i + 1..]);
      Strip(s[..i]) + Strip(tail);
      { StripAppend(s[..i], tail); }
      Strip(s);
    }
  }

  /** `Strip` changes a string exactly when the string holds whitespace. */
  lemma {:induction false} StripIdentity(s: Bytes)
    ensures Strip(s) == s <==> NoSpace(s)
  {
    if s != [] && NoSpace(s) {
      assert NoSpace(s[1..]);
      StripIdentity(s[1..]);
    }
  }

  lemma StripIdempotent(s: Bytes)
    ensures Strip(Strip(s)) == Strip(s)
  {
    StripIdentity(Strip(s));
  }

  /** Every byte that is not whitespace is kept as often as it occurs; whitespace is gone. */
  lemma {:induction false} StripCounts(s: Bytes, b: byte)
    ensures multiset(Strip(s))[b] == if IsSpace(b) then 0 else multiset(s)[b]
  {
    if s != [] {
      StripCounts(s[1..], b);
      assert s == [s[0]] + s[1..];
    }
  }

  /** Only text made of whitespace strips to nothing. */
  lemma {:induction false} StripEmpty(s: Bytes)
    ensures Strip(s) == [] <==> forall i :: 0 <= i < |s| ==> IsSpace(s[i])
  {
    if s != [] {
      StripEmpty(s[1..]);
      assert forall i :: 1 <= i < |s| ==> s[i] == s[1..][i - 1];
    }
  }

  /** `removeSpaces`: erases each whitespace byte found, searching on from where it was. */
  method RemoveSpaces(s: Bytes) returns (text: Bytes)
    ensures text == Strip(s)
  {
    text := s;
    var pos: nat := 0;
    var found := FindFirstOf(text, WHITESPACE, 0);
    while found.Some?
      invariant pos <= |text|
      invariant forall j :: 0 <= j < pos ==> !IsSpace(text[j])
      invariant found.Some? ==> pos <= found.value < |text| && IsSpace(text[found.value])
      invariant found.Some? ==> forall j :: pos <= j < found.value ==> !IsSpace(text[j])
      invariant found.None? ==> forall j :: pos <= j < |text| ==> !IsSpace(text[j])
      invariant Strip(text) == Strip(s)
      decreases |text|
    {
      var p := found.value;
      StripErase(text, p);
      text := text[..p] + text[p + 1..];
      pos := p;
      found := FindFirstOf(text, WHITESPACE, p);
    }
    StripIdentity(text);
  }

  // ---------------------------------------------------------------------------
  // removeAcentos
  // ---------------------------------------------------------------------------

  /** Second bytes of UTF-8 encoded Latin-1 letters, all continuation bytes. */
  type HighByte = b: int | 0x80 <= b < 0x100 witness 0x80

  /** ASCII letters and the bytes between the two cases; none is whitespace or a high byte. */
  type Letter = b: int | 65 <= b <= 122 witness 65

  /** Every accented letter of the table is encoded as this lead byte and one more. */
  const ACCENT_LEAD: byte := 0xC3

  /** The second bytes of the 46 accented letters, in the order of the source table. */
  const ACCENT_SECOND: seq<HighByte> := [
    0xA1, 0xA0, 0xA2, 0xA3, 0xA4, 0x81, 0x80, 0x82, 0x83, 0x84,   // á à â ã ä Á À Â Ã Ä
    0xA9, 0xA8, 0xAA, 0xAB, 0x89, 0x88, 0x8A, 0x8B,               // é è ê ë É È Ê Ë
    0xAD, 0xAC, 0xAE, 0xAF, 0x8D, 0x8C, 0x8E, 0x8F,               // í ì î ï Í Ì Î Ï
    0xB3, 0xB2, 0xB4, 0xB5, 0xB6, 0x93, 0x92, 0x94, 0x95, 0x96,   // ó ò ô õ ö Ó Ò Ô Õ Ö
    0xBA, 0xB9, 0xBB, 0xBC, 0x9A, 0x99, 0x9B, 0x9C,               // ú ù û ü Ú Ù Û Ü
    0xA7, 0x87                                                    // ç Ç
  ]

  /** The plain letter that replaces the accented letter at the same index. */
  const PLAIN: seq<Letter> := [
    97, 97, 97, 97, 97, 65, 65, 65, 65, 65,        // a, A
    101, 101, 101, 101, 69, 69, 69, 69,            // e, E
    105, 105, 105, 105, 73, 73, 73, 73,            // i, I
    111, 111, 111, 111, 111, 79, 79, 79, 79, 79,   // o, O
    117, 117, 117, 117, 85, 85, 85, 85,            // u, U
    99, 67                                         // c, C
  ]

  const TABLE_SIZE: nat := 46

  lemma TableSize()
    ensures |ACCENT_SECOND| == |PLAIN| == TABLE_SIZE
  {
  }

  /** The `k`-th accented letter as the two bytes the source searches for. */
  function Accented(k: nat): (r: Bytes)
    requires k < TABLE_SIZE
    ensures |r| == 2 && r[0] == ACCENT_LEAD && r[1] >= 0x80
  {
    TableSize();
    [ACCENT_LEAD, ACCENT_SECOND[k]]
  }

  /** The `k`-th replacement, one ASCII letter. */
  function Plain(k: nat): (r: Bytes)
    requires k < TABLE_SIZE
    ensures |r| == 1 && 65 <= r[0] <= 122
  {
    TableSize();
    [PLAIN[k]]
  }

  /** Reference definition: the first `n` entries of the table applied in order. */
  function ApplyTable(s: Bytes, n: nat): Bytes
    requires n <= TABLE_SIZE
  {
    if n == 0 then s else ReplaceAll(ApplyTable(s, n - 1), Accented(n - 1), Plain(n - 1))
  }

  function RemoveAcentosSpec(s: Bytes): Bytes
  {
    ApplyTable(s, TABLE_SIZE)
  }

  /** No accented letter of the table occurs in `s`. */
  ghost predicate AccentFree(s: Bytes)
  {
    forall k :: 0 <= k < TABLE_SIZE ==> NoMatch(s, Accented(k))
  }

  /** The first element of a replacement is either the replacement byte or the original first byte. */
  lemma ReplaceAllHead(t: Bytes, pat: Bytes, rep: Bytes)
    requires |pat| == 2 && |rep| == 1 && |t| > 0
    ensures |ReplaceAll(t, pat, rep)| > 0
    ensures ReplaceAll(t, pat, rep)[0] == rep[0] || ReplaceAll(t, pat, rep)[0] == t[0]
  {
  }

  /**
   * Replacing the two-byte `pat` by one byte that can start or end no two-byte `p`
   * leaves no `p` behind: neither when `p` is `pat` itself, nor when `p` was absent.
   */
  lemma {:induction false} PairFree(s: Bytes, pat: Bytes, rep: Bytes, p: Bytes)
    requires |pat| == 2 && |rep| == 1 && |p| == 2
    requires rep[0] != p[0] && rep[0] != p[1]
    requires p == pat || NoMatch(s, p)
    ensures NoMatch(ReplaceAll(s, pat, rep), p)
    decreases |s|
  {
    var r := ReplaceAll(s, pat, rep);
    if |s| < 2 {
      forall j ensures !MatchAt(r, p, j) {
      }
    } else if s[..2] == pat {
      var t := s[2..];
      if p != pat {
        forall j | 0 <= j ensures !MatchAt(t, p, j) { MatchInSuffix(s, p, 2, j); }
      }
      PairFree(t, pat, rep, p);
      var r' := ReplaceAll(t, pat, rep);
      assert r == rep + r';
      forall j ensures !MatchAt(r, p, j) {
        if j >= 1 { MatchInSuffix(r, p, 1, j - 1); assert r[1..] == r'; }
      }
    } else {
      var t := s[1..];
      if p != pat {
        forall j | 0 <= j ensures !MatchAt(t, p, j) { MatchInSuffix(s, p, 1, j); }
      }
      PairFree(t, pat, rep, p);
      var r' := ReplaceAll(t, pat, rep);
      assert r == [s[0]] + r';
      ReplaceAllHead(t, pat, rep);
      assert r[1..] == r';
      forall j | 0 <= j ensures !MatchAt(r, p, j) {
        if j >= 1 {
          MatchInSuffix(r, p, 1, j - 1);
        } else {
          PairHead(s, r, p);
        }
      }
    }
  }

  /** The step of `PairFree` at position 0 when `s` does not start with the pattern. */
  lemma PairHead(s: Bytes, r: Bytes, p: Bytes)
    requires |s| >= 2 && |r| >= 2 && |p| == 2 && r[0] == s[0]
    requires r[1] != p[1] || r[1] == s[1]
    requires !MatchAt(s, p, 0)
    ensures !MatchAt(r, p, 0)
  {
    if r[1] == s[1] {
      assert r[..2] == s[..2];
    }
  }

  /** After the first `n` entries, none of those `n` accented letters occurs any more. */
  lemma {:induction false} ApplyTableFree(s: Bytes, n: nat)
    requires n <= TABLE_SIZE
    ensures forall k :: 0 <= k < n ==> NoMatch(ApplyTable(s, n), Accented(k))
  {
    if n > 0 {
      ApplyTableFree(s, n - 1);
      var before := ApplyTable(s, n - 1);
      var pat, rep := Accented(n - 1), Plain(n - 1);
      assert ApplyTable(s, n) == ReplaceAll(before, pat, rep);
      forall k | 0 <= k < n ensures NoMatch(ReplaceAll(before, pat, rep), Accented(k)) {
        var p := Accented(k);
        assert k < n - 1 ==> NoMatch(before, p);
        PairFree(before, pat, rep, p);
      }
    }
  }

  /** `removeAcentos` leaves none of the accented letters of its table. */
  lemma RemoveAcentosFree(s: Bytes)
    ensures AccentFree(RemoveAcentosSpec(s))
  {
    ApplyTableFree(s, TABLE_SIZE);
  }

  /** Text holding none of the accented letters is returned unchanged. */
  lemma {:induction false} ApplyTableUnchanged(s: Bytes, n: nat)
    requires n <= TABLE_SIZE && AccentFree(s)
    ensures ApplyTable(s, n) == s
  {
    if n > 0 {
      ApplyTableUnchanged(s, n - 1);
      assert NoMatch(s, Accented(n - 1));
      ReplaceAllNoMatch(s, Accented(n - 1), Plain(n - 1), 0);
      assert s[0..] == s;
    }
  }

  lemma RemoveAcentosIdempotent(s: Bytes)
    ensures RemoveAcentosSpec(RemoveAcentosSpec(s)) == RemoveAcentosSpec(s)
  {
    RemoveAcentosFree(s);
    ApplyTableUnchanged(RemoveAcentosSpec(s), TABLE_SIZE);
  }

  /** Replacing by text without whitespace in text without whitespace leaves none. */
  lemma {:induction false} ReplaceAllNoSpace(s: Bytes, pat: Bytes, rep: Bytes)
    requires |pat| > 0 && NoSpace(s) && NoSpace(rep)
    ensures NoSpace(ReplaceAll(s, pat, rep))
    decreases |s|
  {
    if |s| >= |pat| {
      if s[..|pat|] == pat {
        assert NoSpace(s[|pat|..]);
        ReplaceAllNoSpace(s[|pat|..], pat, rep);
      } else {
        assert NoSpace(s[1..]);
        ReplaceAllNoSpace(s[1..], pat, rep);
      }
    }
  }

  /** The table replaces only by letters, so text without whitespace stays without. */
  lemma {:induction false} ApplyTableNoSpace(s: Bytes, n: nat)
    requires n <= TABLE_SIZE && NoSpace(s)
    ensures NoSpace(ApplyTable(s, n))
  {
    if n > 0 {
      ApplyTableNoSpace(s, n - 1);
      ApplyEntryNoSpace(ApplyTable(s, n - 1), n - 1);
    }
  }

  /** One entry of the table keeps text free of whitespace. */
  lemma ApplyEntryNoSpace(s: Bytes, k: nat)
    requires k < TABLE_SIZE && NoSpace(s)
    ensures NoSpace(ReplaceAll(s, Accented(k), Plain(k)))
  {
    PlainNoSpace(k);
    ReplaceAllNoSpace(s, Accented(k), Plain(k));
  }

  lemma PlainNoSpace(k: nat)
    requires k < TABLE_SIZE
    ensures NoSpace(Plain(k))
  {
    assert 65 <= Plain(k)[0] <= 122;
  }

  /**
   * The inner loop of `removeAcentos`: replaces each occurrence of `pat`, searching on from
   * the position of the last replacement. Resuming the search there is sound because the
   * one-byte replacement cannot start a new occurrence.
   */
  method ReplaceEach(s: Bytes, pat: Bytes, rep: Bytes) returns (text: Bytes)
    requires |pat| == 2 && |rep| == 1 && rep[0] != pat[0]
    ensures text == ReplaceAll(s, pat, rep)
  {
    text := s;
    ghost var done: nat := 0;
    var found := Find(text, pat, 0);
    while found.Some?
      invariant done <= |text|
      invariant ReplaceAll(s, pat, rep) == text[..done] + ReplaceAll(text[done..], pat, rep)
      invariant found.Some? ==> done <= found.value && MatchAt(text, pat, found.value)
      invariant found.Some? ==> forall j :: done <= j < found.value ==> !MatchAt(text, pat, j)
      invariant found.None? ==> forall j :: done <= j ==> !MatchAt(text, pat, j)
      decreases |text|
    {
      var p := found.value;
      var next := text[..p] + rep + text[p + 2..];
      ReplaceStep(text, next, pat, rep, done, p);
      text := next;
      done := p;
      found := Find(text, pat, p);
    }
    ReplaceAllNoMatch(text, pat, rep, done);
    assert text == text[..done] + text[done..];
  }

  /** One replacement of `ReplaceEach` keeps what is left to do in the terms of its invariant. */
  lemma ReplaceStep(text: Bytes, next: Bytes, pat: Bytes, rep: Bytes, done: nat, p: nat)
    requires |pat| == 2 && |rep| == 1 && rep[0] != pat[0]
    requires done <= p && MatchAt(text, pat, p)
    requires forall j :: done <= j < p ==> !MatchAt(text, pat, j)
    requires next == text[..p] + rep + text[p + 2..]
    ensures text[..done] + ReplaceAll(text[done..], pat, rep)
         == next[..p] + ReplaceAll(next[p..], pat, rep)
  {
    ReplaceUpToMatch(text, pat, rep, done, p);
    ReplaceFromSplice(text, next, pat, rep, p);
  }

  /** Replacing from `done` with the first match at `p`: the text up to it, `rep`, then the rest replaced. */
  lemma ReplaceUpToMatch(text: Bytes, pat: Bytes, rep: Bytes, done: nat, p: nat)
    requires |pat| == 2 && done <= p && MatchAt(text, pat, p)
    requires forall j :: done <= j < p ==> !MatchAt(text, pat, j)
    ensures text[..done] + ReplaceAll(text[done..], pat, rep)
         == text[..p] + rep + ReplaceAll(text[p + 2..], pat, rep)
  {
    var tail := ReplaceAll(text[p + 2..], pat, rep);
    ReplaceAllAtFound(text, pat, rep, done, p);
    assert text[..done] + text[done..p] == text[..p];
    Regroup(text[..done], text[done..p], rep, tail);
  }

  /** After the splice at `p`, replacing from `p` gives `rep` and then the rest replaced. */
  lemma ReplaceFromSplice(text: Bytes, next: Bytes, pat: Bytes, rep: Bytes, p: nat)
    requires |pat| == 2 && |rep| == 1 && rep[0] != pat[0] && p + 2 <= |text|
    requires next == text[..p] + rep + text[p + 2..]
    ensures next[..p] + ReplaceAll(next[p..], pat, rep)
         == text[..p] + rep + ReplaceAll(text[p + 2..], pat, rep)
  {
    var rest := text[p + 2..];
    Splice(text, rep, p, 2);
    ReplaceAfterRep(next[p..], rest, pat, rep);
    Regroup3(text[..p], rep, ReplaceAll(rest, pat, rep));
  }

  /** Text starting with the replacement byte is not rescanned there. */
  lemma ReplaceAfterRep(u: Bytes, rest: Bytes, pat: Bytes, rep: Bytes)
    requires |pat| == 2 && |rep| == 1 && rep[0] != pat[0]
    requires u == rep + rest
    ensures ReplaceAll(u, pat, rep) == rep + ReplaceAll(rest, pat, rep)
  {
    assert u[1..] == rest;
    if |u| >= 2 {
      assert u[..2][0] == rep[0];
    }
  }

  /** `removeAcentos`: the table entries in order, each by `ReplaceEach`. */
  method RemoveAcentos(s: Bytes) returns (text: Bytes)
    ensures text == RemoveAcentosSpec(s)
  {
    text := s;
    for i := 0 to TABLE_SIZE
      invariant text == ApplyTable(s, i)
    {
      text := ReplaceEach(text, Accented(i), Plain(i));
    }
  }

  // ---------------------------------------------------------------------------
  // to_uppercase, to_lowercase
  // ---------------------------------------------------------------------------

  predicate IsLower(b: byte) { 97 <= b <= 122 }

  predicate IsUpper(b: byte) { 65 <= b <= 90 }

  /** `toupper` in the "C" locale: only 'a'..'z' change. */
  function UpperByte(b: byte): byte { if IsLower(b) then b - 32 else b }

  /** `tolower` in the "C" locale: only 'A'..'Z' change. */
  function LowerByte(b: byte): byte { if IsUpper(b) then b + 32 else b }

  function Upper(s: Bytes): (r: Bytes)
    ensures |r| == |s|
  {
    seq(|s|, i requires 0 <= i < |s| => UpperByte(s[i]))
  }

  function Lower(s: Bytes): (r: Bytes)
    ensures |r| == |s|
  {
    seq(|s|, i requires 0 <= i < |s| => LowerByte(s[i]))
  }

  /** `to_uppercase`: overwrites each byte of the copy with its upper-case form. */
  method ToUppercase(s: Bytes) returns (text: Bytes)
    ensures |text| == |s|
    ensures forall i :: 0 <= i < |s| ==> text[i] == UpperByte(s[i])
  {
    text := s;
    for i := 0 to |text|
      invariant |text| == |s|
      invariant forall j :: 0 <= j < i ==> text[j] == UpperByte(s[j])
      invariant forall j :: i <= j < |s| ==> text[j] == s[j]
    {
      text := text[i := UpperByte(text[i])];
    }
  }

  /** `to_lowercase`: overwrites each byte of the copy with its lower-case form. */
  method ToLowercase(s: Bytes) returns (text: Bytes)
    ensures |text| == |s|
    ensures forall i :: 0 <= i < |s| ==> text[i] == LowerByte(s[i])
  {
    text := s;
    for i := 0 to |text|
      invariant |text| == |s|
      invariant forall j :: 0 <= j < i ==> text[j] == LowerByte(s[j])
      invariant forall j :: i <= j < |s| ==> text[j] == s[j]
    {
      text := text[i := LowerByte(text[i])];
    }
  }

  /** Case mapping is idempotent, leaves no letter of the other case, and each undoes the other on letters. */
  lemma CaseMapping(s: Bytes)
    ensures Upper(Upper(s)) == Upper(s) && Lower(Lower(s)) == Lower(s)
    ensures forall i :: 0 <= i < |s| ==> !IsLower(Upper(s)[i]) && !IsUpper(Lower(s)[i])
    ensures Upper(Lower(s)) == Upper(s) && Lower(Upper(s)) == Lower(s)
  {
  }

  // ---------------------------------------------------------------------------
  // trim, ltrim, rtrim
  // ---------------------------------------------------------------------------

  /** The index of the first byte of `s` at or after `i` that is not whitespace, or `|s|`. */
  function SkipSpaces(s: Bytes, i: nat): (n: nat)
    requires i <= |s|
    ensures i <= n <= |s|
    ensures forall j :: i <= j < n ==> IsSpace(s[j])
    ensures n < |s| ==> !IsSpace(s[n])
    decreases |s| - i
  {
    if i < |s| && IsSpace(s[i]) then SkipSpaces(s, i + 1) else i
  }

  /** The end of `s[..e]` once the whitespace before `e` is dropped: 0, or just after a non-space byte. */
  function DropSpaces(s: Bytes, e: nat): (n: nat)
    requires e <= |s|
    ensures n <= e
    ensures forall j :: n <= j < e ==> IsSpace(s[j])
    ensures n > 0 ==> !IsSpace(s[n - 1])
  {
    if e > 0 && IsSpace(s[e - 1]) then DropSpaces(s, e - 1) else e
  }

  /** Reference definition: the longest suffix of `s` that does not start with whitespace. */
  function TrimLeft(s: Bytes): (r: Bytes)
    ensures |r| <= |s| && r == s[|s| - |r|..]
    ensures |r| > 0 ==> !IsSpace(r[0])
    ensures forall i :: 0 <= i < |s| - |r| ==> IsSpace(s[i])
  {
    s[SkipSpaces(s, 0)..]
  }

  /** Reference definition: the longest prefix of `s` that does not end with whitespace. */
  function TrimRight(s: Bytes): (r: Bytes)
    ensures |r| <= |s| && r == s[..|r|]
    ensures |r| > 0 ==> !IsSpace(r[|r| - 1])
    ensures forall i :: |r| <= i < |s| ==> IsSpace(s[i])
  {
    s[..DropSpaces(s, |s|)]
  }

  /**
   * `ltrim`: erases the first byte while it is whitespace. The test reads `text[0]` first,
   * which on an empty `std::string` is the terminating NUL, so the empty case is safe.
   */
  method Ltrim(s: Bytes) returns (text: Bytes)
    ensures text == TrimLeft(s)
  {
    text := s;
    ghost var k := 0;
    while |text| > 0 && IsSpace(text[0])
      invariant k <= |s| && text == s[k..]
      invariant forall j :: 0 <= j < k ==> IsSpace(s[j])
    {
      text := text[1..];
      k := k + 1;
    }
    assert k < |s| ==> text[0] == s[k];
    assert k == SkipSpaces(s, 0);
  }

  /**
   * `rtrim`: erases the last byte while it is whitespace. The test reads
   * `text[length - 1]` before it tests the length, so a string with no byte other than
   * whitespace (the empty one included) would be read out of range: the caller must
   * pass some non-whitespace byte.
   */
  method Rtrim(s: Bytes) returns (text: Bytes)
    requires HasNonSpace(s)
    ensures text == TrimRight(s) && |text| > 0
  {
    ghost var w :| 0 <= w < |s| && !IsSpace(s[w]);
    text := s;
    ghost var e := |s|;
    while IsSpace(text[|text| - 1])
      invariant w < e <= |s| && text == s[..e]
      invariant forall j :: e <= j < |s| ==> IsSpace(s[j])
      decreases |text|
    {
      assert text[|text| - 1] == s[e - 1];
      text := text[..|text| - 1];
      e := e - 1;
    }
    assert text[|text| - 1] == s[e - 1];
    assert e == DropSpaces(s, |s|);
  }

  /**
   * Reference definition of `trim`: `s` without its leading and trailing whitespace, a
   * contiguous part of `s` outside which there is whitespace only; empty exactly when
   * `s` is all whitespace.
   */
  function TrimBoth(s: Bytes): (r: Bytes)
    ensures |r| <= |s|
    ensures var a := SkipSpaces(s, 0);
      a + |r| <= |s| && r == s[a..a + |r|] &&
      (forall i :: 0 <= i < a ==> IsSpace(s[i])) &&
      (forall i :: a + |r| <= i < |s| ==> IsSpace(s[i]))
    ensures |r| > 0 ==> !IsSpace(r[0]) && !IsSpace(r[|r| - 1])
    ensures |r| > 0 <==> HasNonSpace(s)
  {
    var a := SkipSpaces(s, 0);
    if a == |s| then [] else s[a..DropSpaces(s, |s|)]
  }

  /** Text with no whitespace at either end is its own trimmed form. */
  lemma TrimBothFixed(s: Bytes)
    requires |s| > 0 && !IsSpace(s[0]) && !IsSpace(s[|s| - 1])
    ensures TrimBoth(s) == s
  {
    assert SkipSpaces(s, 0) == 0;
    assert DropSpaces(s, |s|) == |s|;
  }

  lemma TrimBothIdempotent(s: Bytes)
    requires HasNonSpace(s)
    ensures TrimBoth(TrimBoth(s)) == TrimBoth(s)
  {
    TrimBothFixed(TrimBoth(s));
  }

  /** Trimming the right end of the left-trimmed text is trimming both ends. */
  lemma TrimRightOfLeft(s: Bytes)
    ensures TrimRight(TrimLeft(s)) == TrimBoth(s)
  {
    var a := SkipSpaces(s, 0);
    var l := TrimLeft(s);
    if a < |s| {
      var e := DropSpaces(l, |l|);
      var d := DropSpaces(s, |s|);
      assert l[0] == s[a];
      assert e > 0;
      assert l[e - 1] == s[a + e - 1];
      forall j | a + e <= j < |s|
        ensures IsSpace(s[j])
      {
        assert s[j] == l[j - a];
      }
      assert d == a + e;
    }
  }

  /** `trim`: the loop of `ltrim` and then the loop of `rtrim`, on one copy of the text. */
  method Trim(s: Bytes) returns (text: Bytes)
    requires HasNonSpace(s)
    ensures text == TrimBoth(s) && |text| > 0
  {
    text := Ltrim(s);
    TrimRightOfLeft(s);
    text := Rtrim(text);
  }

  // ---------------------------------------------------------------------------
  // normalizeWord
  // ---------------------------------------------------------------------------

  /** `normalizeWord`: `removeSpaces`, then `removeAcentos`, then `to_uppercase`. */
  method NormalizeWord(s: Bytes) returns (text: Bytes)
    ensures text == Upper(RemoveAcentosSpec(Strip(s)))
    ensures NoSpace(text) && AccentFree(text)
    ensures forall i :: 0 <= i < |text| ==> !IsLower(text[i])
  {
    text := RemoveSpaces(s);
    text := RemoveAcentos(text);
    ApplyTableNoSpace(Strip(s), TABLE_SIZE);
    RemoveAcentosFree(Strip(s));
    text := ToUppercase(text);
    UpperKeepsAccentFree(RemoveAcentosSpec(Strip(s)));
  }

  /** Upper-casing touches only ASCII letters, so it creates no accented letter. */
  lemma UpperKeepsAccentFree(s: Bytes)
    requires AccentFree(s)
    ensures AccentFree(Upper(s))
  {
    forall k, j | 0 <= k < TABLE_SIZE && 0 <= j ensures !MatchAt(Upper(s), Accented(k), j) {
      UpperMatch(s, Accented(k), j);
    }
  }

  lemma UpperMatch(s: Bytes, p: Bytes, j: nat)
    requires |p| == 2 && p[0] >= 0x80 && p[1] >= 0x80 && !MatchAt(s, p, j)
    ensures !MatchAt(Upper(s), p, j)
  {
    if j + 2 <= |s| {
      assert Upper(s)[j..j + 2] == [UpperByte(s[j]), UpperByte(s[j + 1])];
    }
  }

  // ---------------------------------------------------------------------------
  // checkAlphaCharacters
  // ---------------------------------------------------------------------------

  /** `isalpha` in the "C" locale. */
  predicate IsAlpha(b: byte) { IsUpper(b) || IsLower(b) }

  /** `checkAlphaCharacters`: stops at the first byte that is not a letter. */
  method CheckAlphaCharacters(word: Bytes) returns (r: bool)
    ensures r <==> forall i :: 0 <= i < |word| ==> IsAlpha(word[i])
  {
    for i := 0 to |word|
      invariant forall j :: 0 <= j < i ==> IsAlpha(word[j])
    {
      if !IsAlpha(word[i]) {
        return false;
      }
    }
    return true;
  }

  // ---------------------------------------------------------------------------
  // explode, implode
  // ---------------------------------------------------------------------------

  /**
   * Reference definition of `explode`: the pieces of `s` between the non-overlapping
   * occurrences of `sep`, found from the left. No piece holds the separator.
   */
  function Split(s: Bytes, sep: Bytes): (r: seq<Bytes>)
    requires |sep| > 0
    ensures |r| >= 1
    ensures forall i :: 0 <= i < |r| ==> NoMatch(r[i], sep)
    decreases |s|
  {
    match Find(s, sep, 0)
    case None => [s]
    case Some(p) =>
      PrefixBeforeMatch(s, sep, p);
      [s[..p]] + Split(s[p + |sep|..], sep)
  }

  /** The text before the first match holds no match. */
  lemma PrefixBeforeMatch(s: Bytes, sep: Bytes, p: nat)
    requires |sep| > 0 && p <= |s| && forall j :: 0 <= j < p ==> !MatchAt(s, sep, j)
    ensures NoMatch(s[..p], sep)
  {
    forall j ensures !MatchAt(s[..p], sep, j) {
      if 0 <= j && j + |sep| <= p {
        assert j < p;
        assert !MatchAt(s, sep, j);
        assert s[..p][j..j + |sep|] == s[j..j + |sep|];
      }
    }
  }

  /** Reference definition of `implode`: the pieces with `d` between each two. */
  function Join(a: seq<Bytes>, d: Bytes): Bytes
  {
    if |a| == 0 then [] else if |a| == 1 then a[0] else a[0] + d + Join(a[1..], d)
  }

  lemma {:induction false} JoinSnoc(a: seq<Bytes>, x: Bytes, d: Bytes)
    requires |a| > 0
    ensures Join(a + [x], d) == Join(a, d) + d + x
  {
    if |a| == 1 {
      assert a + [x] == [a[0], x];
      assert [a[0], x][1..] == [x];
    } else {
      JoinSnoc(a[1..], x, d);
      assert (a + [x])[1..] == a[1..] + [x];
    }
  }

  /** Joining the pieces with the separator gives back the text that was split. */
  lemma {:induction false} JoinSplit(s: Bytes, sep: Bytes)
    requires |sep| > 0
    ensures Join(Split(s, sep), sep) == s
    decreases |s|
  {
    var found := Find(s, sep, 0);
    if found.Some? {
      var p := found.value;
      var rest := s[p + |sep|..];
      var pieces := Split(rest, sep);
      calc {
        Join(Split(s, sep), sep);
        Join([s[..p]] + pieces, sep);
        { JoinCons(s[..p], pieces, sep); }
        s[..p] + sep + Join(pieces, sep);
        { JoinSplit(rest, sep); }
        s[..p] + sep + rest;
        { SplitAround(s, sep, p); }
        s;
      }
    } else {
      assert Split(s, sep) == [s];
    }
  }

  lemma SplitAround(s: Bytes, sep: Bytes, p: nat)
    requires MatchAt(s, sep, p)
    ensures s == s[..p] + sep + s[p + |sep|..]
  {
    assert s == s[..p] + s[p..p + |sep|] + s[p + |sep|..];
  }

  lemma JoinCons(x: Bytes, b: seq<Bytes>, d: Bytes)
    requires |b| >= 1
    ensures Join([x] + b, d) == x + d + Join(b, d)
  {
    assert ([x] + b)[1..] == b;
  }

  /** `explode` yields one piece more than there are occurrences of the separator. */
  lemma {:induction false} SplitCount(s: Bytes, sep: Bytes)
    requires |sep| > 0
    ensures |Split(s, sep)| == CountOcc(s, sep) + 1
    decreases |s|
  {
    assert s[0..] == s;
    match Find(s, sep, 0)
    case None =>
      CountOccNoMatch(s, sep, 0);
    case Some(p) =>
      CountOccAtFound(s, sep, 0, p);
      SplitCount(s[p + |sep|..], sep);
  }

  /** The `std::vector<std::string>` that `explode` appends to through a pointer. */
  class StringVector {
    var items: seq<Bytes>

    constructor()
      ensures items == []
    {
      items := [];
    }

    method PushBack(x: Bytes)
      modifies this
      ensures items == old(items) + [x]
    {
      items := items + [x];
    }
  }

  /**
   * `explode`: pushes the piece before the first separator and recurses on the rest, or
   * pushes the whole text when there is no separator. With an empty separator `find`
   * matches at 0 and erases nothing, so the recursion would never end: the separator
   * must not be empty.
   */
  method Explode(s: Bytes, separator: Bytes, reference: StringVector)
    requires |separator| > 0
    modifies reference
    ensures reference.items == old(reference.items) + Split(s, separator)
    decreases |s|
  {
    var copy := s;
    var pos := Find(copy, separator, 0);
    if pos.Some? {
      var piece := copy[..pos.value];
      reference.PushBack(piece);
      copy := copy[pos.value + |separator|..];
      Explode(copy, separator, reference);
    } else {
      reference.PushBack(copy);
    }
  }

  /** The text a C string points to: the bytes before its terminating NUL. */
  function CString(s: Bytes): (r: Bytes)
    ensures |r| <= |s| && r == s[..|r|] && 0 !in r
    ensures |r| < |s| ==> s[|r|] == 0
  {
    if |s| == 0 || s[0] == 0 then [] else [s[0]] + CString(s[1..])
  }

  /** The `char*` and `const char*` overloads of `explode`: copy the C string, then split it. */
  method ExplodeCString(s: Bytes, separator: Bytes, reference: StringVector)
    requires |separator| > 0
    modifies reference
    ensures reference.items == old(reference.items) + Split(CString(s), separator)
  {
    var copy := CString(s);
    Explode(copy, separator, reference);
  }

  /** `implode` on a `std::vector<std::string>`: the first piece, then delimiter and piece. */
  method Implode(pieces: seq<Bytes>, delimiter: Bytes) returns (response: Bytes)
    ensures response == Join(pieces, delimiter)
  {
    if |pieces| == 0 {
      return [];
    }
    response := pieces[0];
    for i := 1 to |pieces|
      invariant response == Join(pieces[..i], delimiter)
    {
      JoinSnoc(pieces[..i], pieces[i], delimiter);
      assert pieces[..i] + [pieces[i]] == pieces[..i + 1];
      response := response + delimiter + pieces[i];
    }
    assert pieces[..|pieces|] == pieces;
  }

  /** The strings of a `char*` array up to the first null pointer. */
  function TakeUntilNull(a: seq<Option<Bytes>>): (r: seq<Bytes>)
    ensures |r| <= |a|
    ensures forall i :: 0 <= i < |r| ==> a[i] == Some(r[i])
    ensures |r| < |a| ==> a[|r|].None?
  {
    if |a| == 0 || a[0].None? then [] else [a[0].value] + TakeUntilNull(a[1..])
  }

  /**
   * What the `char*[]` overloads of `implode` may read: the first entry is a string, and
   * reading stops within the entries, at `size` or at a null pointer.
   */
  predicate ImplodeReadable(entries: seq<Option<Bytes>>, size: int)
  {
    size <= 0 ||
    (|entries| > 0 && entries[0].Some? &&
     (size <= |entries| || exists k :: 1 <= k < |entries| && entries[k].None?))
  }

  /**
   * `implode` on a `char*[]` of `size` entries: a null array or a size of at most 0 gives
   * the empty string; otherwise the entries are joined up to `size` or the first null.
   */
  method ImplodeCArray(entries: Option<seq<Option<Bytes>>>, size: int, delimiter: Bytes)
    returns (response: Bytes)
    requires entries.Some? ==> ImplodeReadable(entries.value, size)
    ensures entries.None? || size <= 0 ==> response == []
    ensures entries.Some? && size > 0 ==>
      var a := entries.value;
      response == Join(TakeUntilNull(a[..if size <= |a| then size else |a|]), delimiter)
  {
    if size <= 0 || entries.None? {
      return [];
    }
    var a := entries.value;
    ghost var m := if size <= |a| then size else |a|;
    response := a[0].value;
    var i := 1;
    assert TakeUntilNull(a[..1]) == [a[0].value];
    while i < size
      invariant 1 <= i <= m
      invariant forall j :: 0 <= j < i ==> a[j].Some?
      invariant response == Join(TakeUntilNull(a[..i]), delimiter)
    {
      NullWithinArray(a, size, i);
      if a[i].None? {
        TakeUntilNullStops(a, m, i);
        return;
      }
      TakeUntilNullExtends(a, i, delimiter);
      response := response + delimiter + a[i].value;
      i := i + 1;
    }
  }

  /** While only strings have been read, the next read is still inside the array. */
  lemma NullWithinArray(a: seq<Option<Bytes>>, size: int, i: nat)
    requires size > 0 && ImplodeReadable(a, size) && i < size && i <= |a|
    requires forall j :: 0 <= j < i ==> a[j].Some?
    ensures i < |a|
  {
    if size > |a| {
      var k :| 1 <= k < |a| && a[k].None?;
    }
  }

  /** A null pointer at `i` ends the strings read, whatever follows it. */
  lemma TakeUntilNullStops(a: seq<Option<Bytes>>, m: nat, i: nat)
    requires i < m <= |a| && a[i].None? && forall j :: 0 <= j < i ==> a[j].Some?
    ensures TakeUntilNull(a[..m]) == TakeUntilNull(a[..i])
  {
    var r, q := TakeUntilNull(a[..m]), TakeUntilNull(a[..i]);
    assert a[..m][i] == a[i];
    assert |r| == i;
    assert |q| == i;
  }

  /** A string at `i` after `i` strings is read as the next one, joined after a delimiter. */
  lemma TakeUntilNullExtends(a: seq<Option<Bytes>>, i: nat, delimiter: Bytes)
    requires 0 < i < |a| && forall j :: 0 <= j <= i ==> a[j].Some?
    ensures TakeUntilNull(a[..i + 1]) == TakeUntilNull(a[..i]) + [a[i].value]
    ensures Join(TakeUntilNull(a[..i + 1]), delimiter) == Join(TakeUntilNull(a[..i]), delimiter) + delimiter + a[i].value
  {
    var r, q := TakeUntilNull(a[..i + 1]), TakeUntilNull(a[..i]);
    assert |r| == i + 1;
    assert |q| == i;
    assert r == q + [a[i].value];
    JoinSnoc(q, a[i].value, delimiter);
  }
}
