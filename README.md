# Jogo da Forca: bridge, string utilities and regex front end in Dafny

This project models the non-graphical core of the hangman game *Jogo da Forca*. The game is a
CEF (Chromium Embedded Framework) application: web pages written in JavaScript call into
C++ through a bridge, and the C++ side also holds byte-string, path and regex helpers.

- **The JS↔C++ call bridge** (`cef_client.dfy`, `interface.dfy`, `bridge.dfy`).
  - The page-side object `callUserFunc` has `sendToCpp`, `sync` and `async`, and a promise
    counter and pending-promise table that `cefResolve` drains. It is a class over a `nat`
    counter, a `map<string, PendingEntry>` and an outcome log.
  - The host's `ForcaApp` functions are an abstract capability table: each one returns a
    value or throws.
  - The C++ side is modelled as follows:
    - the two routers (`ApiRouter`, `NativeApiRouter`);
    - the packing of a call into an `ApiBridgeMsg` process message;
    - the JavaScript statement that `ResolvePromise`/`RejectPromise` emit;
    - the `getUserData` handler;
    - the argument and string rules of `str_replace`, `str_replace_all` and `slice`.
  - `bridge.dfy` chains both halves. A `getUserData` promise is settled by the statement
    the host emits for it.
- **The GPU fallback latch** `gGPUHandler` (`gpu.dfy`): a flag that can only go from clear
  to set.
- **Byte-string utilities** of `forcaStrings.cpp` (`forca_strings.dfy`):
  - `removeSpaces` and `removeAcentos`;
  - the case mappings and the trims;
  - `normalizeWord` and `checkAlphaCharacters`;
  - `explode` and `implode`.

  Each loop of the source is a method proved against a reference function, and the
  properties are lemmas about that function. `search.dfy` holds the `std::string::find`
  family and the replace-all/replace-n references they share.
- **Path utilities** of `forcaFiles.cpp` (`forca_files.dfy`):
  - `normalizePath`;
  - the blank-content test of `isEmpty`;
  - the word-list path table.
- **The duplicates in `forca.cpp`** (`forca_main.dfy`): each one is proved equal to the
  same reference function as the library version.
- **The regex front end** (`forca_regex.dfy`):
  - `createPattern` parses `/expr/flags` or `#expr#flags` and folds the flag letters into
    PCRE2 option bits. The compiler is a parameter.
  - `RegexResult` is a class with its numbered and named groups.

Bytes are `int`s in `0..255`. C's `isspace`, `isalpha`, `toupper` and `tolower` are taken in
the C locale. JavaScript strings are Dafny `string`s. A JavaScript number is an `int`.

## Model

| member | source | states |
|---|---|---|
| Search.Find | src/forcaStrings.cpp:103-108 | `std::string::find`: `None` (npos) iff no match at or after `from`, else the first match position |
| Search.FindFirstOf | src/forcaStrings.cpp:26-38 | `find_first_of`: the first position at or after `from` whose byte is in the set, `None` iff there is none |
| Search.FindLastOf | src/forcaRegex.cpp:96 | `find_last_of(c)`: the last position of `c`, `None` iff `c` does not occur |
| Search.ReplaceNIsReplaceAll | src/forcaInterface.cpp:1995-2011 | a replacement limit of at least the text's length replaces every occurrence |
| Search.ReplaceNEmptyPattern | src/forcaInterface.cpp:1995-2011 | with an empty search text, `n` replacements put the replacement `n` times in front of the text, since each search matches at the resume point |
| Search.FindSingle | src/forcaFiles.cpp:69-88 | searching for a one-byte string finds the first position holding that byte |
| ForcaStrings.Ascii | src/forcaStrings.cpp:67-91 | a literal's bytes are its characters, one per byte |
| ForcaStrings.Strip | src/forcaStrings.cpp:24-44 | the text without its whitespace bytes contains none and is no longer |
| ForcaStrings.StripAppend | src/forcaStrings.cpp:24-44 | stripping distributes over concatenation |
| ForcaStrings.StripErase | src/forcaStrings.cpp:36-38 | erasing one whitespace byte does not change the stripped text, so each erase in the loop keeps its result |
| ForcaStrings.StripIdentity | src/forcaStrings.cpp:24-44 | stripping leaves the text unchanged iff it holds no whitespace byte |
| ForcaStrings.StripIdempotent | src/forcaStrings.cpp:24-44 | stripping twice is stripping once |
| ForcaStrings.StripCounts | src/forcaStrings.cpp:24-44 | exactly the whitespace bytes are deleted: every other byte keeps its count, whitespace bytes drop to zero |
| ForcaStrings.StripEmpty | src/forcaStrings.cpp:24-44 | the result is empty iff every byte is whitespace |
| ForcaStrings.RemoveSpaces | src/forcaStrings.cpp:24-44 | the erase loop returns the stripped text, which holds no whitespace |
| ForcaStrings.TableSize | src/forcaStrings.cpp:95-98 | both parallel tables have 46 entries |
| ForcaStrings.Accented | src/forcaStrings.cpp:67-78 | every accented entry is the two-byte UTF-8 sequence 0xC3 followed by a continuation byte |
| ForcaStrings.Plain | src/forcaStrings.cpp:82-93 | every replacement is a single ASCII letter |
| ForcaStrings.ReplaceAllHead | src/forcaStrings.cpp:103-108 | replacing a two-byte sequence by one byte keeps a non-empty text non-empty, starting with the replacement or the original first byte |
| ForcaStrings.PairFree | src/forcaStrings.cpp:100-111 | replacing one table entry removes every occurrence of it |
| ForcaStrings.PairHead | src/forcaStrings.cpp:100-111 | a replacement that keeps the first byte cannot create a match of another two-byte entry at the front, so a later entry does not bring back an earlier one |
| ForcaStrings.ApplyTableFree | src/forcaStrings.cpp:100-111 | after the first `k` table entries are applied, none of them occurs |
| ForcaStrings.RemoveAcentosFree | src/forcaStrings.cpp:54-112 | no listed accented sequence remains after `removeAcentos` |
| ForcaStrings.ApplyTableUnchanged | src/forcaStrings.cpp:100-111 | text holding none of the accented sequences is unchanged |
| ForcaStrings.RemoveAcentosIdempotent | src/forcaStrings.cpp:54-112 | `removeAcentos` applied twice is applied once |
| ForcaStrings.ApplyEntryNoSpace | src/forcaStrings.cpp:100-112 | one accent table entry applied keeps text free of whitespace |
| ForcaStrings.ReplaceAllNoSpace | src/forcaStrings.cpp:103-108 | replace-all with a replacement free of whitespace, in a text free of whitespace, leaves the text free of whitespace |
| ForcaStrings.ApplyTableNoSpace | src/forcaStrings.cpp:100-111 | `removeAcentos` adds no whitespace |
| ForcaStrings.ReplaceEach | src/forcaStrings.cpp:102-109 | the find/replace loop for one table entry computes replace-all, resuming at the replacement |
| ForcaStrings.ReplaceStep | src/forcaStrings.cpp:105-108 | one replacement inside the loop keeps the loop's final result |
| ForcaStrings.ReplaceUpToMatch | src/forcaStrings.cpp:103-108 | replacing from the search start with the first match at `p` gives the text up to `p`, the replacement, and the rest replaced |
| ForcaStrings.ReplaceFromSplice | src/forcaStrings.cpp:105-108 | after the splice the one-byte replacement is not rescanned: replacing from it gives it and then the rest replaced |
| ForcaStrings.ReplaceAfterRep | src/forcaStrings.cpp:107-108 | after a replacement by a letter, the next search may resume at the replaced position |
| ForcaStrings.RemoveAcentos | src/forcaStrings.cpp:54-112 | the table loop computes the table applied entry by entry, in table order |
| ForcaStrings.Upper | src/forcaStrings.cpp:126-149 | upper-casing keeps the length and maps each byte on its own |
| ForcaStrings.Lower | src/forcaStrings.cpp:151-166 | lower-casing keeps the length and maps each byte on its own |
| ForcaStrings.ToUppercase | src/forcaStrings.cpp:126-149 | the overwrite loop maps every byte by `toupper` |
| ForcaStrings.ToLowercase | src/forcaStrings.cpp:151-166 | the overwrite loop maps every byte by `tolower` |
| ForcaStrings.CaseMapping | src/forcaStrings.cpp:126-166 | both mappings are idempotent, the results hold no letter of the other case, and upper-casing a lower-cased text equals upper-casing it |
| ForcaStrings.TrimLeft | src/forcaStrings.cpp:203-222 | the result is a suffix of the input; it is empty or starts with a non-space byte; only whitespace was removed |
| ForcaStrings.TrimRight | src/forcaStrings.cpp:225-237 | the result is a prefix of the input; it is empty or ends with a non-space byte; only whitespace was removed |
| ForcaStrings.Ltrim | src/forcaStrings.cpp:203-222 | the erase loop computes the left trim |
| ForcaStrings.Rtrim | src/forcaStrings.cpp:225-237 | the erase loop computes the right trim for a text holding a non-space byte |
| ForcaStrings.SkipSpaces | src/forcaStrings.cpp:179-183 | the first index from `i` on that is not whitespace, or the length: everything skipped is whitespace |
| ForcaStrings.DropSpaces | src/forcaStrings.cpp:185-189 | the end of the text once trailing whitespace before `e` is dropped: everything dropped is whitespace and the byte before the end is not |
| ForcaStrings.TrimRightOfLeft | src/forcaStrings.cpp:175-193 | right-trimming the left-trimmed text is the two-sided trim, as `trim` runs its two loops in turn |
| ForcaStrings.TrimBoth | src/forcaStrings.cpp:175-193 | the trimmed text is a contiguous part of the input with non-space ends, only whitespace was removed around it, and it is non-empty exactly when the input holds a non-space byte |
| ForcaStrings.TrimBothFixed | src/forcaStrings.cpp:175-200 | a text with non-space ends is its own trim |
| ForcaStrings.TrimBothIdempotent | src/forcaStrings.cpp:175-200 | trimming twice is trimming once |
| ForcaStrings.Trim | src/forcaStrings.cpp:175-200 | both erase loops compute the trim, which is non-empty |
| ForcaStrings.NormalizeWord | src/forcaStrings.cpp:247-257 | the result is upper-case of the accent-free text of the stripped input: no whitespace, no accented sequence, no lower-case letter |
| ForcaStrings.UpperKeepsAccentFree | src/forcaStrings.cpp:247-257 | upper-casing cannot create an accented sequence |
| ForcaStrings.UpperMatch | src/forcaStrings.cpp:247-257 | upper-casing cannot create a match of a sequence of two non-ASCII bytes |
| ForcaStrings.CheckAlphaCharacters | src/forcaStrings.cpp:279-293 | true iff every byte is alphabetic; the empty string gives true |
| ForcaStrings.Split | src/forcaStrings.cpp:309-335 | splitting gives at least one piece and no piece holds the separator |
| ForcaStrings.PrefixBeforeMatch | src/forcaStrings.cpp:318-322 | the part before the first match holds no match |
| ForcaStrings.JoinSnoc | src/forcaStrings.cpp:389-393 | joining one more element appends the delimiter and the element |
| ForcaStrings.JoinSplit | src/forcaStrings.cpp:309-335 | joining the pieces with the separator gives the input back |
| ForcaStrings.SplitAround | src/forcaStrings.cpp:318-328 | at the first match the pieces are the prefix followed by the pieces of the rest |
| ForcaStrings.JoinCons | src/forcaStrings.cpp:381-398 | joining a list is its head, the delimiter and the joined tail |
| ForcaStrings.SplitCount | src/forcaStrings.cpp:309-335 | there are exactly one more pieces than non-overlapping occurrences of the separator |
| ForcaStrings.StringVector.constructor | src/forcaStrings.cpp:309 | a new vector is empty |
| ForcaStrings.StringVector.PushBack | src/forcaStrings.cpp:324 | `push_back` appends one element |
| ForcaStrings.Explode | src/forcaStrings.cpp:309-335 | the recursion appends the pieces to the caller's vector, keeping what it held |
| ForcaStrings.CString | src/forcaStrings.cpp:346-375 | a C string is the bytes up to its first null |
| ForcaStrings.ExplodeCString | src/forcaStrings.cpp:346-375 | the `char*` overload splits the bytes before the terminator |
| ForcaStrings.Implode | src/forcaStrings.cpp:381-398 | the loop joins the elements with the delimiter; an empty vector gives the empty string |
| ForcaStrings.TakeUntilNull | src/forcaStrings.cpp:409-454 | the entries before the first null, all of them strings |
| ForcaStrings.ImplodeCArray | src/forcaStrings.cpp:409-454 | a null array or a size of at most 0 gives ""; otherwise the entries up to the size or the first null are joined |
| ForcaStrings.NullWithinArray | src/forcaStrings.cpp:415-420 | while only strings have been read, the next read is inside the array |
| ForcaStrings.TakeUntilNullStops | src/forcaStrings.cpp:416-418 | a null entry ends the joined entries |
| ForcaStrings.TakeUntilNullExtends | src/forcaStrings.cpp:419-420 | a string entry extends the entries read by one, and their join by the delimiter and that entry |
| ForcaFiles.Unbackslash | src/forcaFiles.cpp:69-78 | every backslash becomes '/' and nothing else changes |
| ForcaFiles.Collapse | src/forcaFiles.cpp:80-90 | the result has no "//", is no longer, keeps the first byte and holds only bytes of the input |
| ForcaFiles.CollapseErase | src/forcaFiles.cpp:84-86 | erasing the second '/' of a "//" does not change the collapsed path |
| ForcaFiles.CollapseIdentity | src/forcaFiles.cpp:80-90 | a path with no "//" is unchanged |
| ForcaFiles.CollapseIdempotent | src/forcaFiles.cpp:80-90 | collapsing twice is collapsing once |
| ForcaFiles.CollapseKeepsNonSlash | src/forcaFiles.cpp:80-90 | the non-slash bytes keep their order and count |
| ForcaFiles.CollapseKeepsSlash | src/forcaFiles.cpp:80-90 | the result holds a '/' iff the input does |
| ForcaFiles.NormalizedShape | src/forcaFiles.cpp:65-94 | a normalized path holds no whitespace, no backslash and no "//" |
| ForcaFiles.NormalizeIdempotent | src/forcaFiles.cpp:55-63 | normalizing twice is normalizing once |
| ForcaFiles.ReplaceBackslashes | src/forcaFiles.cpp:69-78 | the replace loop computes the backslash-free path |
| ForcaFiles.ConvertStep | src/forcaFiles.cpp:72-76 | replacing the first backslash found converts every byte up to it |
| ForcaFiles.ConvertDone | src/forcaFiles.cpp:71-78 | once no backslash is found the path is the input with every backslash turned into a slash |
| ForcaFiles.CollapseSlashes | src/forcaFiles.cpp:80-90 | the erase loop as written; it reads `path[pos-1]`, so it needs a path not starting with '/' |
| ForcaFiles.CollapseSlashesGuarded | src/forcaFiles.cpp:80-90 | the erase loop with the position-0 read guarded computes the collapse for every path |
| ForcaFiles.NormalizePath | src/forcaFiles.cpp:65-94 | as written: for paths that do not start with '/' after the first two passes, the result is the normalized path |
| ForcaFiles.AbsolutePathUndefined | src/forcaFiles.cpp:80-85 | "/tmp" and " \tmp" reach the out-of-range read |
| ForcaFiles.NormalizePathGuarded | src/forcaFiles.cpp:65-94 | for every path the result is the normalized path: no whitespace, no backslash, no "//" |
| ForcaFiles.NormalizedFixed | src/forcaFiles.cpp:55-63 | a path already without whitespace, backslash and "//" is unchanged |
| ForcaFiles.LiteralNormalized | src/forcaFiles.cpp:21-45 | a printable literal without backslash, "//" or leading '/' is normalized and in the defined domain |
| ForcaFiles.DefaultPathNormalized | src/forcaFiles.cpp:21 | the default word directory is already normalized |
| ForcaFiles.CustomPathNormalized | src/forcaFiles.cpp:30 | the custom word directory is already normalized |
| ForcaFiles.EasyListNormalized | src/forcaFiles.cpp:39-45 | the easy word-list path is normalized |
| ForcaFiles.NormalListNormalized | src/forcaFiles.cpp:39-45 | the normal word-list path is normalized |
| ForcaFiles.HardListNormalized | src/forcaFiles.cpp:39-45 | the hard word-list path is normalized |
| ForcaFiles.WordListPathsNormalized | src/forcaFiles.cpp:39-45 | every path in `forcaPaths` is normalized |
| ForcaFiles.IsEmpty | src/forcaFiles.cpp:340-363 | a missing or unreadable file is an error; otherwise the content counts as empty iff nothing is left after `removeSpaces` |
| ForcaMain.RemoveSpaces | forca.cpp:37-57 | the duplicate deletes exactly the whitespace bytes, like the library version |
| ForcaMain.RemoveAcentos | forca.cpp:67-129 | the duplicate computes the same table replacement and leaves no accented sequence |
| ForcaMain.ToUppercase | forca.cpp:139-154 | the duplicate is the same byte-wise upper-casing |
| ForcaMain.NormalizeWord | forca.cpp:164-174 | the duplicate composes strip, accent removal and upper-casing in that order |
| ForcaMain.NormalizePath | forca.cpp:192-221 | the duplicate computes the same normalized path, free of whitespace, backslash and "//" |
| ForcaRegex.OptionBitsAdd | src/forcaRegex.cpp:130-149 | OR-ing one flag's bit into the options for a set of letters gives the options with that letter added |
| ForcaRegex.FlagBitIsLookup | src/forcaRegex.cpp:121-143 | a letter adds an option iff it is a key of the flag map, and adds the option mapped to it |
| ForcaRegex.OptionsOfSnoc | src/forcaRegex.cpp:137-147 | the options of the letters present with one more letter are those before it ORed with its bit |
| ForcaRegex.FoldFlagsIsOptionsOf | src/forcaRegex.cpp:119-149 | the fold over the flag bytes equals the options chosen by which letters occur |
| ForcaRegex.FlagsBySet | src/forcaRegex.cpp:119-149 | order, repetition and unknown letters do not matter: the same set of known letters gives the same options |
| ForcaRegex.FlagBitsExact | src/forcaRegex.cpp:121-149 | each option bit is set iff its letter occurs, and no other bit is set |
| ForcaRegex.ParseAccepted | src/forcaRegex.cpp:73-116 | an accepted pattern has length at least 3 and an opening delimiter; the expression is the bytes strictly between index 0 and the last delimiter; the flags are the bytes after it |
| ForcaRegex.ParseBuilt | src/forcaRegex.cpp:85-116 | a pattern built from a delimiter, an expression, the delimiter and flags without it parses back to that expression and those flags |
| ForcaRegex.ParseRejected | src/forcaRegex.cpp:73-110 | too short, a wrong first byte or a last delimiter at index below 2 raise `invalid_argument` |
| ForcaRegex.CreatePattern | src/forcaRegex.cpp:52-190 | the trim loops, checks and flag loop compute the reference result, compile failure included |
| ForcaRegex.FlagOptions | src/forcaRegex.cpp:130-149 | the flag loop computes the fold of the flag bits |
| ForcaRegex.FoldFlagsStep | src/forcaRegex.cpp:137-147 | one more flag ORs in its bit |
| ForcaRegex.CreatePatternResult | src/forcaRegex.cpp:151-188 | on success the pattern carries the extracted expression and the options of its flags |
| ForcaRegex.RegexResult.constructor | include/forcaRegex.h:147-151 | a new result has no groups, no keys and `match` false |
| ForcaRegex.RegexResult.KeyExistIndex | include/forcaRegex.h:163-167 | an int key exists iff it indexes a numbered group |
| ForcaRegex.RegexResult.KeyExistNamed | include/forcaRegex.h:153-161 | a name key exists iff its trimmed text is a named group |
| ForcaRegex.RegexResult.GetIndex | include/forcaRegex.h:217-219 | null iff the int key does not exist; otherwise that group |
| ForcaRegex.RegexResult.GetNamed | include/forcaRegex.h:221-225 | null iff the trimmed key is not a named group; otherwise that group |
| ForcaRegex.RegexResult.PushIndex | include/forcaRegex.h:169-188 | an existing key appends to its group only; a new key appends a group at the old size and records that index, so the int keys stay `0..size-1`; nothing else changes |
| ForcaRegex.RegexResult.PushNamed | include/forcaRegex.h:192-215 | as written: existence is tested on the trimmed key, and the data goes under the untrimmed key. When the trimmed key is absent, a new group replaces any group under the untrimmed key and the untrimmed key is appended to `string_keys`. When it is present, the data is appended under the untrimmed key and `string_keys` is unchanged |
| ForcaRegex.RegexResult.PushNamedTrimmed | include/forcaRegex.h:192-215 | corrected: the data goes under the trimmed key, so every stored name is trimmed and `get` finds it |
| ForcaRegex.NamedKeysValidPush | include/forcaRegex.h:198-211 | storing under a trimmed key keeps the key list exactly the stored names, each once |
| ForcaRegex.SpaceAKey | include/forcaRegex.h:123-143 | " a" trims to "a" |
| ForcaRegex.PushedKeyListedTwice | include/forcaRegex.h:198-211 | as written, two pushes under " a" list " a" twice in `string_keys` and keep only the second group |
| ForcaRegex.PushedGroupLost | include/forcaRegex.h:192-225 | as written, `get(" a")` after `push(..., " a")` finds nothing |
| ForcaRegex.PushedGroupFound | include/forcaRegex.h:192-225 | with the trimmed store, `get(" a")` after `push(..., " a")` finds the pushed data |
| Decimal.NatToString | files/web/js/cefClient.js:83 | a number's decimal text is non-empty digits without a leading zero |
| Decimal.ParseNatToString | files/web/js/cefClient.js:83 | reading the digits back gives the number |
| Decimal.NatToStringInjective | files/web/js/cefClient.js:83 | two numbers have the same text iff they are equal |
| Decimal.IntToString | src/forcaInterface.cpp:329 | `std::to_string` of an int: a '-' iff negative, then the digits of its magnitude |
| Decimal.IntToStringInjective | src/forcaInterface.cpp:329 | two ints have the same text iff they are equal |
| V8Values.StringValue | src/forcaInterface.cpp:1652 | `GetStringValue` gives the string of a string value and "" for any other |
| CefClient.PromiseId | files/web/js/cefClient.js:83 | an id is "promise-" followed by decimal digits |
| CefClient.PromiseIdInjective | files/web/js/cefClient.js:83 | two ids are equal iff their counters are |
| CefClient.FreshIdNotPending | files/web/js/cefClient.js:83-85 | under the bridge invariant the next id is not pending |
| CefClient.PendingIdsDistinct | files/web/js/cefClient.js:83-85 | distinct pending ids have distinct serials |
| CefClient.RegisterKeepsInvariant | files/web/js/cefClient.js:83-85 | registering the next id and counting up keeps every id pending or settled once, with serial below the counter |
| CefClient.SettleKeepsInvariant | files/web/js/cefClient.js:159-166 | settling a pending id and removing it keeps the invariant: no id is settled twice |
| CefClient.CallUserFunc.constructor | files/web/js/cefClient.js:132-134 | the counter starts at 0 and the table empty |
| CefClient.CallUserFunc.SendToCpp | files/web/js/cefClient.js:31-54 | a non-string name throws; only the `salvarUsuario` liveness marker is checked; a missing function then throws; otherwise the function is called once and true returned; counter and table never change |
| CefClient.CallUserFunc.Sync | files/web/js/cefClient.js:116-130 | a non-string name or missing function throws without calling; otherwise the host's return value or exception is passed through unchanged |
| CefClient.CallUserFunc.Async | files/web/js/cefClient.js:69-101 | a non-string name throws synchronously; a missing function gives an already rejected promise with counter and table untouched; otherwise id "promise-"+counter is fresh, registered before the call and passed first; a host throw rejects and removes it |
| CefClient.CallUserFunc.CefResolve | files/web/js/cefClient.js:149-168 | an unknown id throws and changes nothing; a known one records resolve or reject and deletes exactly that entry |
| CefClient.ResolveTwice | files/web/js/cefClient.js:151-166 | a second `cefResolve` for the same id throws |
| ForcaInterface.SetAt | src/forcaInterface.cpp:76-83 | `CefListValue::Set*` at an index writes it, grows the list with nulls and keeps the rest |
| ForcaInterface.Execute | src/forcaInterface.cpp:68-88 | the message is `ApiBridgeMsg`; the name is at index 0 and argument i, when a string or int, at i+1 |
| ForcaInterface.ApiRouter.constructor | include/forcaInterface.h:309 | a router starts with no handler |
| ForcaInterface.ApiRouter.RegisterFunction | src/forcaInterface.cpp:42-46 | the handler replaces any earlier one under the name |
| ForcaInterface.ApiRouter.HandleCall | src/forcaInterface.cpp:49-66 | false, running nothing, for an unknown name; otherwise the handler runs once and true is returned |
| ForcaInterface.ApiRouter.Receive | src/forcaInterface.cpp:217-231 | only an `ApiBridgeMsg` is handled, and it is dispatched by the name at index 0 |
| ForcaInterface.NativeApiRouter.constructor | include/forcaInterface.h:388 | a router starts with no handler |
| ForcaInterface.NativeApiRouter.RegisterFunction | src/forcaInterface.cpp:92-94 | the handler replaces any earlier one under the name |
| ForcaInterface.NativeApiRouter.HandleCall | src/forcaInterface.cpp:96-100 | false and nothing set for an unknown name; otherwise the handler's result, from one call |
| ForcaInterface.LastRegistrationWins | src/forcaInterface.cpp:92-100 | after two registrations under one name, a call runs the second handler |
| ForcaInterface.ResolvePromise | src/forcaInterface.cpp:233-243 | exactly `callUserFunc.cefResolve('<id>', true, '<data>');` for a valid frame, nothing otherwise |
| ForcaInterface.RejectPromise | src/forcaInterface.cpp:245-255 | exactly `callUserFunc.cefResolve('<id>', false, '<message>');` for a valid frame, nothing otherwise |
| ForcaInterface.CompletionRoundTrip | src/forcaInterface.cpp:233-255 | for plain literals, reading the emitted statement gives back id, success and payload |
| ForcaInterface.FrameStripped | src/forcaInterface.cpp:237-239 | reading the statement reads the text between the call's prefix and suffix |
| ForcaInterface.ArgumentsRoundTrip | src/forcaInterface.cpp:237-239 | the id, the separator and the payload are read back |
| ForcaInterface.SeparatorSplit | src/forcaInterface.cpp:237-251 | the `true` and `false` separators are told apart and end where the payload starts |
| ForcaInterface.QuotedDataNotReadBack | src/forcaInterface.cpp:233-255 | a payload holding a quote, a backslash or a line break is not read back as it was |
| ForcaInterface.GetUserData | src/forcaInterface.cpp:299-349 | no browser: nothing; fewer than 3 entries or a non-int user id: reject with the id at index 1 when non-empty; user 123: resolve with its JSON; other users: reject with not found |
| ForcaInterface.UserJsonPlain | src/forcaInterface.cpp:321-326 | the JSON of user 123 is a plain literal |
| ForcaInterface.NotFoundMessagePlain | src/forcaInterface.cpp:329 | every not-found message is a plain literal |
| ForcaInterface.GetUserDataCompletesPromise | src/forcaInterface.cpp:299-349 | for a packed `getUserData(id, user)` call, the one emitted statement reads back as the completion of that id |
| ForcaInterface.SearchArgument | src/forcaInterface.cpp:1652-1707 | a string is searched as is; an object is accepted iff `String` is a function and its text is `/…/…` with a '/' at 2 or later, and then it is searched as that regex text; every other case raises `BadSearch` |
| ForcaInterface.OffsetArgument | src/forcaInterface.cpp:1733-1765 | a missing or undefined offset is 0; a negative or non-number one raises; one at or past the length returns the input |
| ForcaInterface.LimitArgument | src/forcaInterface.cpp:1946-1979 | a missing or undefined limit is the maximum; a negative or non-number one raises; 0 stays 0 |
| ForcaInterface.ReplaceFirstIsReplaceN | src/forcaInterface.cpp:1783-1791 | replacing the first match after the offset is one bounded replacement on the suffix |
| ForcaInterface.StrReplace | src/forcaInterface.cpp:1643-1816 | fewer than 3 arguments raise; string search replaces only the first occurrence at or after the offset; an offset at or past the length returns the input |
| ForcaInterface.ReplaceLoop | src/forcaInterface.cpp:1995-2011 | the while loop performs at most `limit` replacements, resuming after each inserted replacement |
| ForcaInterface.ReplaceLoopStep | src/forcaInterface.cpp:1997-2008 | one replacement and its resume point keep the loop's final result |
| ForcaInterface.LoopExit | src/forcaInterface.cpp:2001 | with no further match or no replacements left, the text is final |
| ForcaInterface.StrReplaceAll | src/forcaInterface.cpp:1818-2036 | the handler computes its reference: argument checks, offset, limit and the bounded replace loop |
| ForcaInterface.StrReplaceIsLimitOne | src/forcaInterface.cpp:1643-2036 | `str_replace` is `str_replace_all` with a limit of 1 |
| ForcaInterface.DefaultLimitReplacesAll | src/forcaInterface.cpp:1946-2011 | the default limit replaces every occurrence after the offset |
| ForcaInterface.ReplacementNotRescanned | src/forcaInterface.cpp:1995-2011 | replacing "a" by "aa" in "aa" gives "aaaa": inserted text is not searched again |
| ForcaInterface.FromEnd | src/forcaInterface.cpp:1252-1280 | a negative index is shifted by the length and clamped at 0 |
| ForcaInterface.SliceIndices | src/forcaInterface.cpp:1236-1293 | too few arguments, a non-number start or a bad end raise; a start at or past the length gives the empty slice; an end not after a start inside the string is an error; otherwise the range runs from the start to the end capped at the length (the length when the end is absent or undefined), inside the string |
| ForcaInterface.Slice | src/forcaInterface.cpp:1229-1320 | fewer than 2 arguments or a non-number start raise; a start at or past the length returns ""; a bad end or an end not after the start raises; otherwise the substring from the start to the capped end is returned |
| ForcaInterface.SliceAgreesWithJs | src/forcaInterface.cpp:1252-1293 | a returned range has JavaScript's `String.prototype.slice` bounds; "" comes exactly from a start at or past the length, as in JavaScript; the one error is an end not after a start inside the string, where JavaScript gives "" |
| ForcaInterfaceGpu.DisableGpuText | include/forcaInterface.h:184 | the switch is the 13 bytes of "--disable-gpu" |
| ForcaInterfaceGpu.GpuHandler.constructor | include/forcaInterface.h:65-77 | the flag starts clear |
| ForcaInterfaceGpu.GpuHandler.SetStatus | include/forcaInterface.h:85-91 | true sets the flag; false leaves it as it was |
| ForcaInterfaceGpu.GpuHandler.GetStatus | include/forcaInterface.h:101-103 | returns the flag and changes nothing |
| ForcaInterfaceGpu.GpuHandler.CheckFlag | include/forcaInterface.h:176-212 | a set flag returns at once; otherwise the flag is set iff some argument after `argv[0]` starts with the switch or a flag file opens |
| ForcaInterfaceGpu.IsGpuError | include/forcaInterface.h:256-264 | true iff the code is one of the two GPU result codes |
| ForcaInterfaceGpu.LatchHolds | include/forcaInterface.h:85-212 | once the GPU is disabled, no call clears the flag |
| Bridge.PromiseIdPlain | files/web/js/cefClient.js:83 | a promise id is a plain literal, so the host can quote it |
| Bridge.GetUserDataRoundTrip | files/web/js/cefClient.js:69-168 | `async("getUserData", user)`, the packed message, the handler and `cefResolve` settle exactly that promise: resolved for user 123, rejected otherwise; nothing stays pending |

## Left out

- File and console I/O are not modelled. `IsEmpty` takes whether the file exists, whether it is readable and its content as parameters. `fileExist`, `canRead`, `canWrite`, `createFile` and `getContent` are not modelled.
- `pcre2_compile` is a parameter of `CreatePattern`. Regex matching (`preg_match`, `preg_replace`, `preg_split`) is not modelled. The regex branch of `str_replace`/`str_replace_all` calls a `pregReplace` parameter.
- `forcaStrings::Length` and `forcaStrings::substring`, the UTF-8 helpers `slice` calls, are not part of this model; they are parameters of `Slice`.
- ForcaStrings.Explode: requires a non-empty separator; with an empty one the source recurses without end.
- ForcaStrings.Rtrim: requires a non-space byte, because the source reads `text[length-1]` of an empty text.
- ForcaStrings.Trim: requires a non-space byte, for the same read.
- ForcaRegex.CreatePattern: requires a non-space byte, for the same read in its trim.
- ForcaRegex.RegexResult.KeyExistNamed: requires a non-space key, for the same read in the private `trim`.
- ForcaRegex.RegexResult.GetNamed: requires a non-space key, for the same reason.
- ForcaRegex.RegexResult.PushNamed: requires a non-space key, for the same reason.
- ForcaFiles.NormalizePath: requires a path that does not start with '/' after the first two passes. The source reads `path[-1]` there; see Findings.
- ForcaMain.NormalizePath: requires the same, for the same read in the duplicate.
- ForcaFiles.CollapseSlashes: requires a path not starting with '/', for the same read.
- ForcaFiles.IsEmpty: builds its error message with `NormalizePathGuarded`. For a file name that starts with '/' after the first two passes, the source's `normalizePath` makes the same out-of-range read; see Findings.
- ForcaStrings.ImplodeCArray: requires that every entry read lies inside the array: the first entry is a string, and a null entry comes before the array ends when `size` is larger. The source reads whatever memory follows.
- ForcaStrings.IsSpace: the C-locale whitespace set, tested on the byte's value. `trim`, `ltrim`, `rtrim`, `createPattern` and `RegexResult`'s private `trim` pass a plain `char` to `isspace`. Where `char` is signed, a byte of 0x80 or more (such as the 0xC3 lead byte of every accented letter) is undefined behaviour there. The model treats such a byte as not whitespace.
- ForcaInterface.StrReplaceAll: with an empty string search and no limit, the model inserts the replacement `SIZE_MAX` times. The source's loop instead grows the string until `length_error` or `bad_alloc`, which the handler's catch turns into a JavaScript exception. With an empty replacement as well, the loop runs `SIZE_MAX` times. Neither exhaustion nor running time is modelled.
- JavaScript numbers are integers here. Doubles, their truncation and `IsUInt` are not modelled, and `IsInt` is the int32 range. Offsets and limits beyond `size_t` are not distinguished.
- CefClient.CallUserFunc.CefResolve: looks ids up as own keys only. A JavaScript object would also find inherited keys such as "toString".
- Promise scheduling is not modelled. A resolve or reject is a recorded outcome, not a callback run later by the event loop.
- Strings are bytes or Dafny characters. Unicode normalisation, locales other than C, and the UTF-16/UTF-8 conversion between V8 and C++ are not modelled.
- ForcaInterfaceGpu.IsGpuError: the two GPU result codes are CEF constants, so they are parameters.
- The flag files of `gGPUHandler` are represented by whether they open. Creating and deleting them and the message boxes are not modelled.
- Exception messages are tags (`HandlerError`, `JsError`), not the Portuguese texts.
- Only `getUserData`, `str_replace`, `str_replace_all` and `slice` are modelled among the registered handlers. The others call helpers defined elsewhere, which are not part of this model.
- The process-message transport, the window, context and command-line setup, `demangle` and `exceptionText` are CEF plumbing and are not modelled.
- The vendored PCRE2 and PDCurses code and the CryptoPP wrappers are not modelled.

## Findings

| source | as written | input that shows it | evidently intended | confidence | as-written member | corrected member |
|---|---|---|---|---|---|---|
| src/forcaFiles.cpp:80-85 (also forca.cpp:207-212) | the slash pass tests `path[pos-1] == '/'` for the first '/' found, also at position 0 | "/tmp", or " \tmp" after the first two passes: `path[-1]` is read | skip the look-back at position 0, so absolute paths are normalized too | not executed | ForcaFiles.NormalizePath | ForcaFiles.NormalizePathGuarded |
| include/forcaRegex.h:198-211 | `push(start, end, value, key)` computes the trimmed key and never uses it: `key_exist(key)` tests the trimmed key, but the data is stored under the untrimmed `key`, while `get` looks up the trimmed one | `push(0, 1, "a", " a")` then `get(" a")` returns null; pushing under " a" twice lists " a" twice in `string_keys` and keeps only the second group | store under the trimmed key, so a pushed group is found by the lookups | not executed | ForcaRegex.RegexResult.PushNamed | ForcaRegex.RegexResult.PushNamedTrimmed |
