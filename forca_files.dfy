/**
 * The path utilities of `forcaFiles` (src/forcaFiles.cpp): the constant paths of the game's
 * files, `normalizePath` and `isEmpty`. File-system access (`fileExist`, `canRead`,
 * `getContent`) is outside the model; its results are parameters.
 */
module ForcaFiles {
  import opened Wrappers
  import opened Search
  import opened ForcaStrings

  const SLASH: byte := 47
  const BACKSLASH: byte := 92

  // ---------------------------------------------------------------------------
  // Reference definitions
  // ---------------------------------------------------------------------------

  function SlashOf(b: byte): byte { if b == BACKSLASH then SLASH else b }

  /** Every backslash turned into a slash, nothing else changed. */
  function Unbackslash(s: Bytes): (r: Bytes)
    ensures |r| == |s| && BACKSLASH !in r
    ensures forall i :: 0 <= i < |s| && s[i] != BACKSLASH ==> r[i] == s[i]
  {
    seq(|s|, i requires 0 <= i < |s| => SlashOf(s[i]))
  }

  /** A slash at `i` right after another slash. */
  predicate DoubleAt(s: Bytes, i: int)
  {
    0 < i < |s| && s[i - 1] == SLASH && s[i] == SLASH
  }

  predicate NoDoubleSlash(s: Bytes)
  {
    forall i :: 0 < i < |s| ==> !DoubleAt(s, i)
  }

  /**
   * Each run of slashes shortened to one slash. The first byte is always kept, every byte
   * kept comes from `s`, and no two slashes are left side by side.
   */
  function Collapse(s: Bytes): (r: Bytes)
    ensures NoDoubleSlash(r) && |r| <= |s|
    ensures |s| > 0 ==> |r| > 0 && r[0] == s[0]
    ensures forall i :: 0 <= i < |r| ==> r[i] in s
  {
    if |s| < 2 then s
    else if s[0] == SLASH && s[1] == SLASH then Collapse(s[1..])
    else
      var rest := Collapse(s[1..]);
      assert s == [s[0]] + s[1..];
      var r := [s[0]] + rest;
      assert rest[0] == s[1];
      forall i | 0 < i < |r| ensures !DoubleAt(r, i) {
        if i > 1 {
          assert r[i] == rest[i - 1] && r[i - 1] == rest[i - 2];
          assert !DoubleAt(rest, i - 1);
        }
      }
      assert forall i :: 1 <= i < |r| ==> r[i] == rest[i - 1];
      r
  }

  /** What `normalizePath` computes: whitespace removed, backslashes made slashes, runs collapsed. */
  function NormalizePathSpec(s: Bytes): Bytes
  {
    Collapse(Unbackslash(Strip(s)))
  }

  /**
   * The inputs on which `normalizePath` as written reads only inside its string: a path
   * whose first byte, after whitespace is removed, is a slash or backslash makes it read
   * `path[pos - 1]` with `pos == 0`.
   */
  predicate NormalizePathDefined(s: Bytes)
  {
    var t := Strip(s);
    |t| == 0 || SlashOf(t[0]) != SLASH
  }

  // ---------------------------------------------------------------------------
  // Properties of the reference definitions
  // ---------------------------------------------------------------------------

  /** Erasing the second slash of a pair does not change the collapsed form. */
  lemma {:induction false} CollapseErase(s: Bytes, i: nat)
    requires DoubleAt(s, i)
    ensures Collapse(s[..i] + s[i + 1..]) == Collapse(s)
  {
    var t := s[..i] + s[i + 1..];
    if i == 1 {
      assert t == s[1..];
    } else {
      assert t[0] == s[0] && t[1] == s[1];
      assert t[1..] == s[1..][..i - 1] + s[1..][i..];
      CollapseErase(s[1..], i - 1);
    }
  }

  /** Text without a pair of slashes is its own collapsed form. */
  lemma {:induction false} CollapseIdentity(s: Bytes)
    requires NoDoubleSlash(s)
    ensures Collapse(s) == s
  {
    if |s| >= 2 {
      assert !DoubleAt(s, 1);
      forall i ensures !DoubleAt(s[1..], i) {
        assert !DoubleAt(s, i + 1);
      }
      CollapseIdentity(s[1..]);
    }
  }

  lemma CollapseIdempotent(s: Bytes)
    ensures Collapse(Collapse(s)) == Collapse(s)
  {
    CollapseIdentity(Collapse(s));
  }

  /** The bytes other than slashes, in order. */
  function NonSlash(s: Bytes): Bytes
  {
    if s == [] then [] else (if s[0] == SLASH then [] else [s[0]]) + NonSlash(s[1..])
  }

  /** Collapsing removes slashes only: every other byte is kept, in order. */
  lemma {:induction false} CollapseKeepsNonSlash(s: Bytes)
    ensures NonSlash(Collapse(s)) == NonSlash(s)
  {
    if |s| >= 2 {
      CollapseKeepsNonSlash(s[1..]);
      if !(s[0] == SLASH && s[1] == SLASH) {
        var r := [s[0]] + Collapse(s[1..]);
        assert r[1..] == Collapse(s[1..]);
      }
    }
  }

  /** A slash is kept exactly where the text has one: slashes are shortened, never dropped. */
  lemma {:induction false} CollapseKeepsSlash(s: Bytes)
    ensures SLASH in Collapse(s) <==> SLASH in s
  {
    if |s| >= 2 {
      CollapseKeepsSlash(s[1..]);
      assert s == [s[0]] + s[1..];
      if !(s[0] == SLASH && s[1] == SLASH) {
        var r := [s[0]] + Collapse(s[1..]);
        assert r[1..] == Collapse(s[1..]);
        assert SLASH in r <==> s[0] == SLASH || SLASH in Collapse(s[1..]);
      }
    }
  }

  /** A normalized path has no whitespace, no backslash and no pair of slashes. */
  lemma NormalizedShape(s: Bytes)
    ensures NoSpace(NormalizePathSpec(s)) && NoDoubleSlash(NormalizePathSpec(s))
    ensures BACKSLASH !in NormalizePathSpec(s)
  {
    var u := Unbackslash(Strip(s));
    assert NoSpace(u);
  }

  /** Normalizing a normalized path changes nothing. */
  lemma NormalizeIdempotent(s: Bytes)
    ensures NormalizePathSpec(NormalizePathSpec(s)) == NormalizePathSpec(s)
  {
    var n := NormalizePathSpec(s);
    NormalizedShape(s);
    StripIdentity(n);
    assert Unbackslash(n) == n;
    CollapseIdentity(n);
  }

  // ---------------------------------------------------------------------------
  // normalizePath
  // ---------------------------------------------------------------------------

  /** The loop that replaces each backslash found, searching on from where it was. */
  method ReplaceBackslashes(s: Bytes) returns (path: Bytes)
    ensures path == Unbackslash(s)
  {
    path := s;
    ghost var from: nat := 0;
    var found := Find(path, [BACKSLASH], 0);
    while found.Some?
      invariant from <= |path| && Converted(s, path, from)
      invariant found == Find(path, [BACKSLASH], from)
      decreases if found.Some? then |path| - found.value else 0
    {
      FindSingle(path, BACKSLASH, from);
      var pos := found.value;
      ConvertStep(s, path, from, pos);
      path := path[..pos] + [SLASH] + path[pos + 1..];
      from := pos;
      found := Find(path, [BACKSLASH], pos);
      FindSingle(path, BACKSLASH, pos);
    }
    FindSingle(path, BACKSLASH, from);
    ConvertDone(s, path, from);
  }

  /** Before `from` every backslash of `s` has become a slash; from there some may remain. */
  ghost predicate Converted(s: Bytes, path: Bytes, from: nat)
  {
    |path| == |s| &&
    (forall j :: 0 <= j < from && j < |s| ==> path[j] == SlashOf(s[j])) &&
    (forall j :: from <= j < |s| ==> path[j] == s[j] || path[j] == SlashOf(s[j]))
  }

  /** Replacing the first backslash at or after `from` converts everything up to it. */
  lemma ConvertStep(s: Bytes, path: Bytes, from: nat, pos: nat)
    requires Converted(s, path, from) && from <= pos < |path| && path[pos] == BACKSLASH
    requires forall j :: from <= j < pos ==> path[j] != BACKSLASH
    ensures Converted(s, path[..pos] + [SLASH] + path[pos + 1..], pos)
  {
    var next := path[..pos] + [SLASH] + path[pos + 1..];
    assert next[pos] == SLASH == SlashOf(s[pos]);
    forall j | 0 <= j < pos ensures next[j] == SlashOf(s[j]) {
      assert next[j] == path[j];
    }
    forall j | pos < j < |s| ensures next[j] == s[j] || next[j] == SlashOf(s[j]) {
      assert next[j] == path[j];
    }
  }

  /** With no backslash left from `from` on, the path is the converted text. */
  lemma ConvertDone(s: Bytes, path: Bytes, from: nat)
    requires from <= |path| && Converted(s, path, from)
    requires forall j :: from <= j < |path| ==> path[j] != BACKSLASH
    ensures path == Unbackslash(s)
  {
    assert forall j :: 0 <= j < |s| ==> path[j] == Unbackslash(s)[j];
  }

  /**
   * The loop that erases each slash preceded by a slash. As written, a slash at index 0
   * makes the test read before the string: the caller must not pass one there.
   */
  method CollapseSlashes(s: Bytes) returns (path: Bytes)
    requires |s| == 0 || s[0] != SLASH
    ensures path == Collapse(s)
  {
    path := s;
    var pos: nat := 0;
    var found := Find(path, [SLASH], 0);
    FindSingle(path, SLASH, 0);
    while found.Some?
      invariant pos <= |path| && |path| <= |s|
      invariant |path| > 0 ==> path[0] == s[0]
      invariant Collapse(path) == Collapse(s)
      invariant forall i :: 0 < i < pos ==> !DoubleAt(path, i)
      invariant found.Some? ==> pos <= found.value < |path| && path[found.value] == SLASH
      invariant found.Some? ==> forall j :: pos <= j < found.value ==> path[j] != SLASH
      invariant found.None? ==> forall j :: pos <= j < |path| ==> path[j] != SLASH
      decreases |path| - pos
    {
      var p := found.value;
      ghost var before, from := path, pos;
      if path[p - 1] == SLASH {
        CollapseErase(path, p);
        path := path[..p] + path[p + 1..];
        pos := p;
        forall i | 0 < i < pos ensures !DoubleAt(path, i) {
          assert path[i] == before[i] && path[i - 1] == before[i - 1];
          assert i < from ==> !DoubleAt(before, i);
        }
      } else {
        pos := p + 1;
        forall i | 0 < i < pos ensures !DoubleAt(path, i) {
          assert i < from ==> !DoubleAt(before, i);
        }
      }
      found := Find(path, [SLASH], pos);
      FindSingle(path, SLASH, pos);
    }
    CollapseIdentity(path);
  }

  /**
   * The same loop with the test `pos > 0` that the one above leaves out: a slash at index 0
   * has no predecessor and is kept.
   */
  method CollapseSlashesGuarded(s: Bytes) returns (path: Bytes)
    ensures path == Collapse(s)
  {
    path := s;
    var pos: nat := 0;
    var found := Find(path, [SLASH], 0);
    FindSingle(path, SLASH, 0);
    while found.Some?
      invariant pos <= |path| && |path| <= |s|
      invariant |path| > 0 ==> path[0] == s[0]
      invariant Collapse(path) == Collapse(s)
      invariant forall i :: 0 < i < pos ==> !DoubleAt(path, i)
      invariant found.Some? ==> pos <= found.value < |path| && path[found.value] == SLASH
      invariant found.Some? ==> forall j :: pos <= j < found.value ==> path[j] != SLASH
      invariant found.None? ==> forall j :: pos <= j < |path| ==> path[j] != SLASH
      decreases |path| - pos
    {
      var p := found.value;
      ghost var before, from := path, pos;
      if p > 0 && path[p - 1] == SLASH {
        CollapseErase(path, p);
        path := path[..p] + path[p + 1..];
        pos := p;
        forall i | 0 < i < pos ensures !DoubleAt(path, i) {
          assert path[i] == before[i] && path[i - 1] == before[i - 1];
          assert i < from ==> !DoubleAt(before, i);
        }
      } else {
        pos := p + 1;
        forall i | 0 < i < pos ensures !DoubleAt(path, i) {
          assert i < from ==> !DoubleAt(before, i);
        }
      }
      found := Find(path, [SLASH], pos);
      FindSingle(path, SLASH, pos);
    }
    CollapseIdentity(path);
  }

  /** `normalizePath` as written: defined only when no slash leads the stripped path. */
  method NormalizePath(s: Bytes) returns (path: Bytes)
    requires NormalizePathDefined(s)
    ensures path == NormalizePathSpec(s)
  {
    path := RemoveSpaces(s);
    path := ReplaceBackslashes(path);
    path := CollapseSlashes(path);
  }

  /** An absolute path is outside what `normalizePath` as written can read. */
  lemma AbsolutePathUndefined()
    ensures !NormalizePathDefined(Ascii("/tmp"))
    ensures !NormalizePathDefined(Ascii(" \\tmp"))
  {
    assert Strip(Ascii("/tmp"))[0] == SLASH;
    assert Strip(Ascii(" \\tmp"))[0] == BACKSLASH;
  }

  /** `normalizePath` with the guard on `pos`: defined for every path, with the same result. */
  method NormalizePathGuarded(s: Bytes) returns (path: Bytes)
    ensures path == NormalizePathSpec(s)
    ensures NoSpace(path) && NoDoubleSlash(path) && BACKSLASH !in path
  {
    path := RemoveSpaces(s);
    path := ReplaceBackslashes(path);
    path := CollapseSlashesGuarded(path);
    NormalizedShape(s);
  }

  /** A path with no whitespace, backslash or pair of slashes is already normalized. */
  lemma NormalizedFixed(s: Bytes)
    requires NoSpace(s) && BACKSLASH !in s && NoDoubleSlash(s)
    ensures NormalizePathSpec(s) == s
  {
    StripIdentity(s);
    assert Unbackslash(s) == s;
    CollapseIdentity(s);
  }

  // ---------------------------------------------------------------------------
  // The constant paths
  // ---------------------------------------------------------------------------

  /** `forcaDefaultPath`: the files shipped with the game. */
  const FORCA_DEFAULT_PATH: Bytes := Ascii("../files/default/")

  /** `forcaCustomPath`: the files the player may change. */
  const FORCA_CUSTOM_PATH: Bytes := Ascii("../files/custom/")

  const EASY_WORDS: Bytes := Ascii("words/levels/easy.txt")
  const NORMAL_WORDS: Bytes := Ascii("words/levels/normal.txt")
  const HARD_WORDS: Bytes := Ascii("words/levels/hard.txt")

  /** `forcaPaths`: the word lists of the three difficulty levels. */
  const FORCA_PATHS: map<Bytes, Bytes> := map[
    Ascii("WORDS_LEVELS_EASY") := EASY_WORDS,
    Ascii("WORDS_LEVELS_NORMAL") := NORMAL_WORDS,
    Ascii("WORDS_LEVELS_HARD") := HARD_WORDS
  ]

  /** An ASCII literal without whitespace, backslash or pair of slashes is normalized. */
  lemma LiteralNormalized(s: string)
    requires forall i :: 0 <= i < |s| ==> 32 < s[i] as int < 128 && s[i] != '\\'
    requires forall i :: 0 < i < |s| ==> !(s[i - 1] == '/' && s[i] == '/')
    requires |s| > 0 && s[0] != '/'
    ensures NormalizePathSpec(Ascii(s)) == Ascii(s) && NormalizePathDefined(Ascii(s))
  {
    var b := Ascii(s);
    forall i | 0 <= i < |b| ensures !IsSpace(b[i]) && b[i] != BACKSLASH {
      assert 32 < b[i] < 128 && b[i] != BACKSLASH;
    }
    forall i | 0 < i < |b| ensures !DoubleAt(b, i) {
      assert !(s[i - 1] == '/' && s[i] == '/');
    }
    NormalizedFixed(b);
    StripIdentity(b);
  }

  /** `forcaDefaultPath` is already in normal form. */
  lemma DefaultPathNormalized()
    ensures NormalizePathSpec(FORCA_DEFAULT_PATH) == FORCA_DEFAULT_PATH
  {
    LiteralNormalized("../files/default/");
  }

  /** `forcaCustomPath` is already in normal form. */
  lemma CustomPathNormalized()
    ensures NormalizePathSpec(FORCA_CUSTOM_PATH) == FORCA_CUSTOM_PATH
  {
    LiteralNormalized("../files/custom/");
  }

  predicate IsNormalPath(p: Bytes)
  {
    NormalizePathSpec(p) == p && NormalizePathDefined(p)
  }

  lemma EasyListNormalized() ensures IsNormalPath(EASY_WORDS)
  {
    LiteralNormalized("words/levels/easy.txt");
  }

  lemma NormalListNormalized() ensures IsNormalPath(NORMAL_WORDS)
  {
    LiteralNormalized("words/levels/normal.txt");
  }

  lemma HardListNormalized() ensures IsNormalPath(HARD_WORDS)
  {
    LiteralNormalized("words/levels/hard.txt");
  }

  /** Every word-list path of `forcaPaths` is in normal form and safe to pass to `normalizePath`. */
  lemma WordListPathsNormalized()
    ensures forall p :: p in FORCA_PATHS.Values ==> IsNormalPath(p)
  {
    EasyListNormalized();
    NormalListNormalized();
    HardListNormalized();
  }

  // ---------------------------------------------------------------------------
  // isEmpty
  // ---------------------------------------------------------------------------

  /**
   * `isEmpty`: a missing or unreadable file throws `std::runtime_error` naming the
   * normalized path; otherwise the file counts as empty when nothing but whitespace is
   * left of its content. Whether the file exists, whether it can be read and its content
   * are what the file system answers.
   */
  method IsEmpty(filename: Bytes, fileExists: bool, readable: bool, content: Bytes)
    returns (r: Result<bool, Bytes>)
    ensures !fileExists ==>
      r == Err(Ascii("O arquivo") + NormalizePathSpec(filename) + Ascii(" nao existe!"))
    ensures fileExists && !readable ==>
      r == Err(Ascii("O arquivo") + NormalizePathSpec(filename) + Ascii(" nao permite leitura!"))
    ensures fileExists && readable ==>
      r == Ok(forall i :: 0 <= i < |content| ==> IsSpace(content[i]))
  {
    if !fileExists {
      var path := NormalizePathGuarded(filename);
      return Err(Ascii("O arquivo") + path + Ascii(" nao existe!"));
    }
    if !readable {
      var path := NormalizePathGuarded(filename);
      return Err(Ascii("O arquivo") + path + Ascii(" nao permite leitura!"));
    }
    var stripped := RemoveSpaces(content);
    StripEmpty(content);
    return Ok(|stripped| == 0);
  }
}
