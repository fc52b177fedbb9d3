# wasm_webgpu core, modelled in Dafny

wasm_webgpu lets C and C++ programs compiled with Emscripten drive WebGPU.
It has two sides. In the browser, a JavaScript library keeps every WebGPU
object in a table indexed by small integer ids. In native builds, a Dawn
backend keeps a wrapper record per Dawn object. Around those two sides sit:

- the code generators that number the WebGPU enum strings;
- the string compressor that packs the library's string tables;
- a minimal `printf` that prints through the browser console;
- two samples, one subdividing triangles into a vertex buffer and one
  probing GPU memory with ever smaller buffers.

This project models that core and proves what each part promises.

| file | module | models |
|---|---|---|
| text.dfy | `Text` | the string operations the scripts use: `in`/`includes`, `replaceAll`, `indexOf`, `split`/`join`, ASCII `upper()`, `%d` |
| mangling.dfy | `Mangling` | the enum-name-to-macro mangling of both generators (`enum_name_to_cpp_identifier`, `convertEnumNameToCppIdentifier`) |
| strings_header.dfy | `StringsHeader` | the shared string table and the generated `lib_webgpu_strings.h` text, and the printed table literal |
| idl_generator.dfy | `IdlGenerator` | idl/webgpu_api_generator.py: IDL fix-ups, enum extraction, header emission, patching of lib_webgpu.js |
| gen_strings.dfy | `GenStrings` | idl/gen_webgpu_strings.js, the JavaScript twin of the Python generator |
| compress.dfy | `Compress` | scripts/compress_strings.js: substring counting, `replaceAll`, the decoder, one compression attempt, the search, `addNums` |
| js_registry.dfy | `JsRegistry` | the JavaScript object table: `wgpuStore`, parent/child links, cascading destroy, destroy-all, live count, canvas context and texture |
| bits.dfy | `Bits` | 32-bit masks and the leading-zero count |
| js_codecs.dfy | `JsCodecs` | the library's string decoder, feature bit masks, 53-bit numbers in two heap words, the limits structure |
| dawn.dfy | `Dawn` | the Dawn backend's wrapper registry and buffer map states |
| dawn_features.dfy | `DawnFeatures` | the Dawn backend's feature bit masks |
| compilation_message.dfy | `CompilationMessage` | the names of shader compilation message types on both sides |
| miniprintf.dfy | `MiniPrintf` | lib/library_miniprintf.js |
| vertex_buffer.dfy | `VertexBuffer` | samples/vertex_buffer/vertex_buffer.c, the recursive triangle subdivision |
| gpu_oom.dfy | `GpuOom` | samples/gpu_oom/gpu_oom.c, the allocation loop |

Conventions used throughout the model:

- Strings are `seq<char>`.
- JavaScript heap words are integers in [0, 2^32).
- Bit masks are `bv32`.
- The `uint64_t` counters of gpu_oom are unbounded integers reduced
  modulo 2^64 where the C code wraps.
- The vertex sample's `float` arithmetic is done on reals.
- Inputs that come from outside the code are parameters: the GPU's
  answers, the browser's `features` and `limits` objects, Dawn's
  `HasFeature`, the canvas object, and the random pick of the compressor.

The comment at samples/vertex_buffer/vertex_buffer.c:124 writes the vertex
bound as `8*(1 + 5 + ... + 5^recursionLimit)`. That sum has one term too
many. The macro on the next line, `2 * 5^r - 2`, is the exact bound, and
it is the bound `VertexBuffer.EmittedBound` proves.

The comment at samples/common/miniprintf.h:21-22 swaps stdout and stderr.
The code sends streams above 1 to `console.error`, and the model follows
the code.

## Model

| member | source | states |
|---|---|---|
| Text.ContainsIffOccurs | idl/webgpu_api_generator.py:73 | `sub in s` holds exactly when `sub` occurs at some index of `s` |
| Text.ContainsChar | scripts/compress_strings.js:68 | `s.includes(c)` for one character holds exactly when the character is in `s` |
| Text.ReplaceAbsent | scripts/compress_strings.js:13-22 | `replaceAll` returns a text in which the pattern does not occur unchanged |
| Text.ReplaceAbsentChar | scripts/compress_strings.js:29 | replacing a character that is not in the text leaves the text unchanged |
| Text.ReplaceInverse | scripts/compress_strings.js:25-32 | substituting a fresh character for a pattern, then the pattern back for that character, restores the text |
| Text.ReplaceNotLonger | scripts/compress_strings.js:13-22 | a replacement no longer than the pattern never lengthens the text |
| Text.ReplaceShrinks | scripts/compress_strings.js:90 | replacing an occurring pattern of two or more characters by one character makes the text strictly shorter |
| Text.ReplaceChars | scripts/compress_strings.js:18 | every character of the result comes from the text or from the replacement |
| Text.ReplaceRemovesChar | scripts/compress_strings.js:29 | after replacing a character by text that lacks it, the character no longer occurs |
| Text.IndexFrom | scripts/compress_strings.js:16 | `indexOf(find, from)` is -1 or an index at or after `from` where the pattern occurs |
| Text.IndexFromFirst | scripts/compress_strings.js:16-17 | the index found is the first occurrence from `from`; -1 means there is none |
| Text.Split | scripts/compress_strings.js:27 | `split` on one character gives at least one piece, and no piece holds the separator |
| Text.SplitJoin | scripts/compress_strings.js:77 | splitting the joined code list gives the codes back when no code holds the separator |
| Text.JoinSplit | scripts/compress_strings.js:383 | joining the pieces of a split gives the text back |
| Text.NatToStringParses | idl/webgpu_api_generator.py:59 | the `%d` rendering of a natural number is a non-empty run of digits that reads back as the number |
| Text.NatToStringInjective | idl/webgpu_api_generator.py:59 | distinct numbers are printed differently |
| Text.Filter | lib/lib_webgpu.js:842-848 | the result holds exactly the listed elements that are in the set |
| Mangling.UnderscoreCapsChars | idl/webgpu_api_generator.py:45 | `re.sub(r'([A-Z])', '_\1', ...)` adds no character other than `_` |
| Mangling.UnderscoreCapsLonger | idl/webgpu_api_generator.py:45 | inserting underscores never shortens the name |
| Mangling.MacroNameChars | idl/webgpu_api_generator.py:44-47 | a bare name of letters and digits and a value of letters, digits and hyphens give a name of capitals, digits and underscores |
| Mangling.IdentifierIsMacroName | idl/gen_webgpu_strings.js:299-303 | for such IDL names, every identifier either generator makes consists of capitals, digits and underscores only |
| Mangling.ReplaceFirstChars | idl/gen_webgpu_strings.js:300 | dropping the first `GPU` adds no character |
| Mangling.IdentifierExtendsType | idl/webgpu_api_generator.py:46 | the type identifier is a proper prefix of every value identifier of its enum, followed by `_` |
| Mangling.InvalidIdentifier | idl/webgpu_api_generator.py:51 | the INVALID constant is the type identifier followed by `_INVALID` |
| Mangling.MangleCollides | idl/webgpu_api_generator.py:46 | values that differ only in `-` against `_` get the same macro name: there is no collision check |
| Mangling.DialectsAgree | idl/gen_webgpu_strings.js:299-303 | for a name that starts with `GPU` and holds no other `GPU`, both generators produce the same identifier |
| Mangling.DialectsDiffer | idl/gen_webgpu_strings.js:300 | a name with a second `GPU` keeps it in the JavaScript identifier but loses it in the Python one |
| Mangling.MacroName | idl/webgpu_api_generator.py:44-47 | `WGPU`, then the bare name with `_` before each capital, upper-cased, then for a non-empty value `_` and the upper-cased value with every `-` turned into `_`; MacroNameChars and MacroNameVector state what it yields |
| Mangling.Mangle | idl/webgpu_api_generator.py:44-47 | the Python identifier: every `GPU` is dropped from the enum name before the macro name is built; MangleCollides and IdentifierExtendsType state its properties |
| Mangling.JsMangle | idl/gen_webgpu_strings.js:299-303 | the JavaScript identifier: only the first `GPU` is dropped; DialectsAgree and DialectsDiffer compare it with the Python one |
| Mangling.Identifier | idl/gen_webgpu_strings.js:299-303 | the identifier of either generator, chosen by dialect |
| Mangling.MacroNameVector | lib/lib_webgpu.h:887 | the bare name `TextureFormat` and the value `rgba8unorm-srgb` give `WGPU_TEXTURE_FORMAT_RGBA8UNORM_SRGB` |
| Mangling.IdentifierVector | lib/lib_webgpu.h:887 | both generators turn `GPUTextureFormat` and `rgba8unorm-srgb` into `WGPU_TEXTURE_FORMAT_RGBA8UNORM_SRGB`, the constant the header declares |
| StringsHeader.Position | idl/webgpu_api_generator.py:55 | `wgpu_strings.index(v)` is the first index holding `v`, or -1 exactly when `v` is absent |
| StringsHeader.InternedValid | idl/webgpu_api_generator.py:54-58 | interning keeps the placeholder first and every string once, only appends, keeps a present string's index and gives a new string the old length |
| StringsHeader.PositionExtend | idl/webgpu_api_generator.py:58 | appending to the table never moves a string already in it |
| StringsHeader.IndexStable | idl/webgpu_api_generator.py:53-58 | once a string is in the table, growing the table does not change its index |
| StringsHeader.StringTable.constructor | idl/webgpu_api_generator.py:42 | the table starts as the placeholder alone |
| StringsHeader.StringTable.InternOrLookup | idl/webgpu_api_generator.py:54-58 | returns the index holding `v`: the old index of a present string with the table untouched, otherwise the old length with `v` appended |
| StringsHeader.GenerateHeader | idl/webgpu_api_generator.py:49-61 | the header text equals the emission of every enum's type line, INVALID line, value lines and blank line, numbered through the final table |
| StringsHeader.EmitValuesInto | idl/webgpu_api_generator.py:53-59 | the value loop appends one numbered `#define` per value and interns the value |
| StringsHeader.EmitEnumInto | idl/webgpu_api_generator.py:50-61 | one enum appends its type, INVALID, value and blank lines |
| StringsHeader.ExtendHeader | idl/webgpu_api_generator.py:50 | appending a line's text to the header text renders one more line |
| StringsHeader.HeaderDefinesIndexTable | idl/webgpu_api_generator.py:53-59 | the final table is valid and every value constant is the index that holds its string |
| StringsHeader.HeaderDeclaresEveryEnum | idl/webgpu_api_generator.py:50-51 | every enum gets its `typedef` line and its INVALID `#define` numbered 0 |
| StringsHeader.HeaderDefinesEveryValue | idl/webgpu_api_generator.py:59 | every value of every enum gets a `#define` numbered by its index in the final table |
| StringsHeader.TableOnlyDeclared | idl/webgpu_api_generator.py:58 | every table entry other than the placeholder is a declared value |
| StringsHeader.TableHoldsDeclaredStrings | idl/webgpu_api_generator.py:42-58 | the table starts with the placeholder and holds exactly the strings some enum declares |
| StringsHeader.TableSize | idl/webgpu_api_generator.py:75 | the table has one entry per distinct declared string plus the placeholder |
| StringsHeader.NumbersIdentifyStrings | idl/webgpu_api_generator.py:59 | two value constants share a number exactly when they name the same string, across enums |
| StringsHeader.EmitFreshValue | idl/webgpu_api_generator.py:57-59 | a new string is appended and numbered by the old table length |
| StringsHeader.TwoEnumsNumberedInOrder | idl/webgpu_api_generator.py:49-61 | two enums with four different values: the values get 1 to 4 in order and both INVALID constants stay 0 |
| StringsHeader.SharedValueStoredOnce | idl/webgpu_api_generator.py:54-58 | a string two enums share is stored once and both constants get its index |
| StringsHeader.TableEntries | idl/webgpu_api_generator.py:65-66 | the quoted entries, with entry 0 replaced by the hole, one per table entry |
| StringsHeader.ReadTable | idl/webgpu_api_generator.py:67 | reading the literal back gives one entry per comma-separated element |
| StringsHeader.TableTextRoundTrip | idl/webgpu_api_generator.py:65-67 | the printed literal reads back as the table, with exactly one element per entry, when no string holds a comma |
| StringsHeader.StylesFit | idl/gen_webgpu_strings.js:327 | the Python literal style and the JSON style both read back unambiguously |
| IdlGenerator.Fixup | idl/webgpu_api_generator.py:9-19 | the loader's five fix-ups in their order: the `messages` line, the bracket regex, the `lodMaxClamp` default, the `Exposed` block and the `nonGuaranteedLimits` record; the lemmas below state what the regex step does |
| IdlGenerator.LazyClose | idl/webgpu_api_generator.py:12 | the lazy `.*?` match ends at the first `]` after the start, and never crosses a newline |
| IdlGenerator.StripWithoutBrackets | idl/webgpu_api_generator.py:12 | text without `[` passes the bracket regex unchanged |
| IdlGenerator.StripOneLineGroup | idl/webgpu_api_generator.py:12 | a bracket group closed on its own line is removed entirely |
| IdlGenerator.StripKeepsMultiLineOpen | idl/webgpu_api_generator.py:12 | a `[` that ends its line is no match: the bracket and the newline are kept |
| IdlGenerator.StripKeepsOwnLineBracket | idl/webgpu_api_generator.py:12 | a block that opens with a bracket alone on its line, with no other `[`, passes unchanged |
| IdlGenerator.ExposedBlockSurvivesBracketRegex | idl/webgpu_api_generator.py:12-16 | the multi-line `Exposed` block survives the bracket regex and is then removed by its own literal replacement |
| IdlGenerator.Names | idl/webgpu_api_generator.py:26 | the dictionary's keys, in insertion order |
| IdlGenerator.Lookup | idl/webgpu_api_generator.py:33 | `enums[n]` is the value under key `n`, or nothing when `n` is not a key |
| IdlGenerator.Assign | idl/webgpu_api_generator.py:33 | `enums[n] = vs` keeps an existing key's position and puts a new key at the end |
| IdlGenerator.AssignLookup | idl/webgpu_api_generator.py:33 | after `d[n] = vs`, `d[n]` is `vs` and every other key reads as before |
| IdlGenerator.AssignUnique | idl/webgpu_api_generator.py:33 | assigning keeps the keys distinct |
| IdlGenerator.AssignTwice | idl/webgpu_api_generator.py:33-35 | a second assignment to the same key overrides the first |
| IdlGenerator.ExtractEnums | idl/webgpu_api_generator.py:26-35 | the extraction loop skips includes statements, lists every enum once, and `enums[n]` holds the values of the last declaration named `n` |
| IdlGenerator.ExtractedUnique | idl/webgpu_api_generator.py:26-35 | each enum name is a key once |
| IdlGenerator.ExtractedLookup | idl/webgpu_api_generator.py:26-35 | a name is a key exactly when some enum declaration carries it, with the values of the last one |
| IdlGenerator.RedeclarationKeepsPosition | idl/webgpu_api_generator.py:33 | a later declaration of the same enum keeps the key's first position |
| IdlGenerator.LineEnd | idl/webgpu_api_generator.py:76 | `.*` runs to the next newline or the end of the text |
| IdlGenerator.SubTableAbsent | idl/webgpu_api_generator.py:72 | without a table opening, the table regex changes nothing |
| IdlGenerator.PatchNeedsTable | idl/webgpu_api_generator.py:72-73 | a library with no table opening fails the first assertion, before the comment is touched |
| IdlGenerator.SubTableHit | idl/webgpu_api_generator.py:72 | a match anywhere in the text leaves the new table in the result |
| IdlGenerator.SubCommentHit | idl/webgpu_api_generator.py:76 | a comment stem anywhere in the text leaves the new comment in the result |
| IdlGenerator.Patch | idl/webgpu_api_generator.py:69-79 | substitutes the table, fails the first assertion when the new table is absent, substitutes the comment, fails the second when the new comment is absent, and otherwise gives the patched text; PatchNeedsTable and PatchSucceeds state both outcomes |
| IdlGenerator.PatchSucceeds | idl/webgpu_api_generator.py:69-79 | a library with a one-line table literal and a comment stem is patched, and the result holds the new comment |
| IdlGenerator.Run | idl/webgpu_api_generator.py:26-79 | the header is the emission of the extracted enums; the library result is the patch with the final table, and holds the new comment when it succeeds |
| GenStrings.Run | idl/gen_webgpu_strings.js:308-327 | the header is the JavaScript-dialect emission and the printed line is the JSON table |
| GenStrings.PrintedTableReadsBack | idl/gen_webgpu_strings.js:327 | the printed array has `null` first, then every distinct value at its index |
| GenStrings.LinesNameEnums | idl/gen_webgpu_strings.js:309-321 | every line of the header belongs to one of the enums |
| GenStrings.RenderAgrees | idl/gen_webgpu_strings.js:310-319 | lines whose identifiers agree render the same in both dialects |
| GenStrings.HeadersAgree | idl/gen_webgpu_strings.js:308-324 | when every enum name is `GPU` plus a rest without `GPU`, the JavaScript generator writes the Python generator's header |
| Compress.FindSubStrings | scripts/compress_strings.js:2-10 | the keys are exactly the length-`n` substrings occurring in `s`, each mapped to its number of overlapping occurrences |
| Compress.CountAtMost | scripts/compress_strings.js:4-8 | a substring is counted at most once per window position |
| Compress.CountTwiceShorter | scripts/compress_strings.js:4-8 | a substring counted twice is shorter than the text |
| Compress.CountWhole | scripts/compress_strings.js:4-8 | the whole text occurs in itself exactly once |
| Compress.ReplaceBeforeFirst | scripts/compress_strings.js:16-19 | at the first occurrence the loop keeps the text before it, inserts the replacement and goes on after it |
| Compress.ReplaceAllLoop | scripts/compress_strings.js:13-22 | the `indexOf`/splice loop computes `ReplaceAll`, the left-to-right non-overlapping replacement |
| Compress.ResumeMissing | scripts/compress_strings.js:17 | with no occurrence from `iStart` on, the rest of the text is left as it is |
| Compress.ResumeFound | scripts/compress_strings.js:18-19 | one splice, resuming right after the inserted text, keeps the loop's result |
| Compress.Decode | scripts/compress_strings.js:25-32 | the decoder's meaning: character `ch + k` is replaced by the code `k`-th from the end of the list, last code first; DecodeEncode proves it undoes Encode |
| Compress.Encode | scripts/compress_strings.js:71-75 | the re-encoding: `codes[i]` becomes character `start + |codes| - 1 - i`, in the order of the list; EncodeChars and DecodeEncode state its properties |
| Compress.DecodeStrings | scripts/compress_strings.js:25-32 | the decoder replaces character `ch + k` by the code popped `k`-th from the end, starting at 65 when `ch` is absent |
| Compress.EncodeChars | scripts/compress_strings.js:71-75 | the re-encoded text holds only characters of the original and code characters |
| Compress.DecodeEncode | scripts/compress_strings.js:71-75 | decoding undoes the re-encoding when the original holds no code character |
| Compress.DecodeJoinedCodes | scripts/compress_strings.js:77 | the code list joined with `|` splits back into the codes, and the decoder restores the text from it |
| Compress.ScanLength | scripts/compress_strings.js:49-64 | one length of the scan returns the largest count and exactly the substrings of that length with a positive gain |
| Compress.MaxAtFullLength | scripts/compress_strings.js:63-64 | at the full length of the text the largest count is 1, so the length scan ends |
| Compress.CollectWinnings | scripts/compress_strings.js:44-65 | as written, for a text of two or more characters: the length scan stops at the first length whose largest count is 1, and collects exactly the winning substrings up to it |
| Compress.ShortTextScanNeverStops | scripts/compress_strings.js:48-64 | as written, a text shorter than two characters has no largest count of 1 at any length from 2, so the scan never breaks |
| Compress.ShortTextHasNoWinning | scripts/compress_strings.js:53-54 | a text shorter than two characters has no substring with a positive gain |
| Compress.GuardedWinnings | scripts/compress_strings.js:44-65 | with a length guard: a text shorter than two characters gives no candidates and stops at 0; any other text stops at the first length whose largest count is 1; the result is exactly the winning substrings up to the stop length |
| Compress.GainNeedsTwo | scripts/compress_strings.js:53 | only a substring occurring at least twice has a positive gain |
| Compress.WinningKeepsTwo | scripts/compress_strings.js:90 | after substituting a candidate, the text still has at least two characters |
| Compress.ReEncode | scripts/compress_strings.js:71-75 | the final loop replaces `codes[i]` by character `start + |codes| - 1 - i` |
| Compress.OptimizeOnce | scripts/compress_strings.js:36-94 | returns the text unchanged, or a decoder call with 1 to `end - start` codes, each a candidate when picked, whose encoding is the re-encoding of the original; a text shorter than two characters comes back unchanged |
| Compress.OptimizeRoundTrip | scripts/compress_strings.js:36-94 | the call an attempt returns evaluates back to the original text when the text holds no character of the range and no code holds `|` |
| Compress.CodesAvoidBar | scripts/compress_strings.js:77 | codes picked from a text without `|`, over a range without `|`, hold no `|`, so the joined list splits back into them |
| Compress.AttemptEvaluates | scripts/compress_strings.js:36-94 | over a fresh range (the text holds no `|` and no character of the range, the range starts at 1 or more and excludes `|`), every call an attempt may return evaluates back to the text |
| Compress.CallMentionsDecoder | scripts/compress_strings.js:77 | every decoder call's text contains `wgpuDecodeStrings` |
| Compress.RecordStep | scripts/compress_strings.js:101-104 | the test `newStr.length < best && newStr.includes(...)` holds exactly when the attempt is a call shorter than `|s| + 100` and than every earlier call, and then `best` and `bestStr` move to it |
| Compress.CheckCall | scripts/compress_strings.js:105-106 | the `eval` and the comparison succeed exactly when the call evaluates to `s` |
| Compress.Search | scripts/compress_strings.js:96-115 | the attempts made are each a possible result of one attempt; on success all `numIterations` were made, every call that set a new best evaluated back to `s`, and the result is `s` when no call beat `|s| + 100`, otherwise the first call of the shortest length; it fails, as the `throw` does, when the latest new best does not evaluate back to `s`, all earlier ones having done so; over a fresh range it never fails |
| Compress.AddNums | scripts/compress_strings.js:367-371 | labels every string with ` (i)`, keeping the order and length |
| Compress.NumberedPosition | scripts/compress_strings.js:369 | equal labels carry the same position |
| Compress.AddNumsDistinct | scripts/compress_strings.js:367-371 | no two entries of the labelled list are equal |
| JsRegistry.ProbeStopsAtFreeCounter | lib/lib_webgpu.js:116 | when the counter's own id is free the probe stops at once |
| JsRegistry.Registry.constructor | lib/lib_webgpu.js:91-100 | the table starts empty and the counter at 2 |
| JsRegistry.Registry.Probe | lib/lib_webgpu.js:116 | the probe ends on a free id no smaller than 2, within the range when it started within it, having passed only occupied ids |
| JsRegistry.Registry.Store | lib/lib_webgpu.js:106-129 | a falsy object gives 0 and changes nothing; any other object goes to the first free id from the counter, records it in `wid`, and the counter moves past it, wrapping to 2 after 2147483647 as the probe does; this is the corrected counter, and StoreAsWritten and WrapAsWritten model line 126 as written, without the wrap |
| JsRegistry.Registry.StoreAsWritten | lib/lib_webgpu.js:106-129 | as written, the counter becomes the stored id plus one, with no wrap |
| JsRegistry.Registry.Link | lib/lib_webgpu.js:131-142 | records the child's parent and the child under its id among the parent's derived objects, and nothing else |
| JsRegistry.Registry.StoreAndSetParent | lib/lib_webgpu.js:147-153 | stores a truthy object and links it under its parent |
| JsRegistry.Registry.Destroy | lib/lib_webgpu.js:203-219 | 0 or an absent id changes nothing; otherwise the id and, transitively, everything it derived leave the table; every id that leaves is reached from the destroyed id by a chain of child links through ids that left; exactly the removed objects' `wid` entries change, each to 0; and the object is unlinked from its parent |
| JsRegistry.Registry.DestroyDerived | lib/lib_webgpu.js:213 | after the `forEach`, no child id of the root is left in the table |
| JsRegistry.DestroyKeepsUnreached | lib/lib_webgpu.js:203-219 | after a destroy, every id that no chain of child links from the destroyed id reaches is still in the table with the same object |
| JsRegistry.StartDestroy | lib/lib_webgpu.js:206-210 | removing the root is the first step of a destroy |
| JsRegistry.StepDestroy | lib/lib_webgpu.js:213 | destroying one more child keeps what the destroy has achieved |
| JsRegistry.FinishDestroy | lib/lib_webgpu.js:213-217 | once every child is gone, the destroy's guarantees hold |
| JsRegistry.UnlinkDestroyed | lib/lib_webgpu.js:215 | dropping the destroyed id from its parent keeps the guarantees |
| JsRegistry.Registry.NumLiveObjects | lib/lib_webgpu.js:195-199 | the counting loop returns the number of ids in the table |
| JsRegistry.Registry.IsValidObject | lib/lib_webgpu.js:231 | an id is valid exactly when it is in the table |
| JsRegistry.Registry.DestroyAll | lib/lib_webgpu.js:223-229 | the table is emptied and every stored object gets `wid` 0, leaving links and the counter alone |
| JsRegistry.Registry.GetContext | lib/lib_webgpu.js:299-318 | a context that already has an id keeps it; otherwise it is stored |
| JsRegistry.Registry.GetCurrentTexture | lib/lib_webgpu.js:496-519 | returns id 1, which holds the new texture; the same texture changes nothing; a different one first destroys id 1 with the full cascade (the intermediate state meets `Destroyed` for id 1, so only ids reached from it leave and only their `wid` entries change), then is stored under id 1 with its `wid` set and linked under the context, and nothing else changes |
| JsRegistry.StoreAdapterQueueDevice | lib/lib_webgpu.js:1012-1017 | on a fresh table the adapter, queue and device get ids 2, 3 and 4, linked under the device and the adapter |
| JsRegistry.AdapterTakesAll | test/wgpu_get_num_live_objects.cpp:11-12 | destroying that adapter leaves nothing behind |
| JsRegistry.LiveObjectsScenario | test/wgpu_get_num_live_objects.cpp:8-25 | the live count is 0 before, 3 once stored, and 0 after destroying the adapter |
| JsRegistry.DestroyAllScenario | test/wgpu_destroy_all_objects.cpp:6-15 | with an adapter, queue and device stored, 3 objects are live and the device id is valid; after destroy-all nothing is live and the device id is invalid |
| JsRegistry.ContextScenario | test/wgpu_canvas_get_webgpu_context.twice.cpp:9-15 | asking twice gives the same id, and after destroying it the context is stored under a new id |
| JsRegistry.WrapAsWritten | lib/lib_webgpu.js:126 | as written, with the counter at 2147483647 two stores return 2147483647 and then 2147483648, outside the id range |
| JsRegistry.WrapCorrected | lib/lib_webgpu.js:116 | with the probe's wrapping step the second store returns 2 |
| Bits.SetBit | lib/lib_webgpu.js:845 | `mask |= 1 << i` sets exactly bit `i` |
| Bits.MaskTest | lib/lib_webgpu.js:922 | `v & (1 << i)` is non-zero exactly when bit `i` is set |
| Bits.NoBitAbove | lib/lib_webgpu.js:842-848 | a mask below `1 << i` has no bit at `i` or above |
| Bits.SetBitBelow | lib/lib_webgpu.js:845 | adding bit `i` to a mask below `1 << i` stays below `1 << (i + 1)` |
| Bits.Clz32 | lib/lib_webgpu.js:859 | `Math.clz32` is the leading-zero count: 32 for 0, otherwise the zeros above the highest set bit |
| Bits.ClzFrom | lib/lib_webgpu.js:859 | the downward scan finds the leading-zero count |
| Bits.LeadingZerosUnique | lib/lib_webgpu_dawn.cpp:657-682 | a bit pattern has only one leading-zero count |
| Bits.Clz32OfBit | lib/lib_webgpu.js:859 | `1 << i` has `31 - i` leading zeros, and only 0 has 32 |
| Bits.TopBitIndex | lib/lib_webgpu.js:859 | `31 - clz32(1 << i)` recovers `i` |
| Bits.SingleBit | lib/lib_webgpu.js:856 | a non-zero pattern with no two set bits is `1 << (31 - clz32)` |
| Bits.SingleBitTest | lib/lib_webgpu.js:856 | `x & (x - 1) == 0` holds exactly for 0 and the single bits |
| Bits.BitIsSingle | lib/lib_webgpu.js:856 | every `1 << i` passes the single-bit test |
| JsCodecs.WithHole | lib/lib_webgpu.js:360 | `[,].concat(parts)` has a hole at 0 and the parts after it |
| JsCodecs.DecodeStrings | lib/lib_webgpu.js:357-361 | the library decoder returns the hole followed by the space-separated words of the decoded text |
| JsCodecs.DecodersAgree | lib/lib_webgpu.js:359 | the library decoder and the script's decoder give the same strings when the first code is non-empty |
| JsCodecs.EmptyFirstCode | lib/lib_webgpu.js:359 | an empty first code turns the library's loop off: the text is only split |
| JsCodecs.DecodeSingleCode | lib/lib_webgpu.js:359 | a single code decodes by one substitution |
| JsCodecs.IndexFormatsVector | lib/lib_webgpu.js:396-397 | `('A16 A32', 'uint')` decodes to a hole, `uint16`, `uint32` |
| JsCodecs.Limit64NamesVector | lib/lib_webgpu.js:372-373 | the 64-bit limit names decode, after `.slice(1)`, to the three names of the comment |
| JsCodecs.GetFeatures | lib/lib_webgpu.js:832-850 | bit `i` of the mask is set exactly when feature `i` of the table is in the `features` set |
| JsCodecs.NextMask | lib/lib_webgpu.js:843-847 | one step of the walk decides bit `i` and keeps the lower bits |
| JsCodecs.ReadFeaturesBitfield | lib/lib_webgpu.js:914-925 | lists, in table order, the features whose bit below 14 is set |
| JsCodecs.ListedEncoded | lib/lib_webgpu.js:914-925 | reading back a mask that encodes a set lists exactly the set's table features, in order |
| JsCodecs.FeaturesRoundTrip | lib/lib_webgpu.js:832-925 | decoding the encoded feature set gives the set's table features in table order |
| JsCodecs.SupportsAgreesWithGetFeatures | lib/lib_webgpu.js:853-860 | `supports_feature(1 << i)` answers bit `i` of `get_features`, bits past the table are unsupported, and 0 is unsupported |
| JsCodecs.SingleFeatureCheckAsWrittenTestsHandle | lib/lib_webgpu.js:856 | as written, the check rejects device 3 asking for one feature and accepts adapter 2 asking for two |
| JsCodecs.SingleFeatureCheckAcceptsBits | lib/lib_webgpu.js:856 | the intended check accepts exactly 0 and the single feature bits |
| JsCodecs.SupportsFeature | lib/lib_webgpu.js:853-860 | `supports_feature` looks up entry `31 - clz32(feature)` of the table, false outside it; SupportsAgreesWithGetFeatures states its meaning |
| JsCodecs.ToUint32 | lib/lib_webgpu.js:190 | storing into `HEAPU32` wraps into [0, 2^32) and keeps the value modulo 2^32 |
| JsCodecs.I53Words | lib/lib_webgpu.js:189-190 | the writer stores two words |
| JsCodecs.Overwrite | lib/lib_webgpu.js:189-190 | writing words keeps the heap's length |
| JsCodecs.OverwriteReads | lib/lib_webgpu.js:189-190 | the written words read back |
| JsCodecs.OverwriteKeeps | lib/lib_webgpu.js:189-190 | every other word is left as it was |
| JsCodecs.WriteI53 | lib/lib_webgpu.js:183-192 | returns the heap with the two words written at the index |
| JsCodecs.ReadI53 | lib/lib_webgpu.js:179 | the reader: the low word plus the high word times 2^32; I53RoundTrip proves it reads back what WriteI53 writes |
| JsCodecs.I53RoundTrip | lib/lib_webgpu.js:173-192 | every integer in [0, 2^64), so every safe integer in [0, 2^53), reads back as written |
| JsCodecs.I53WordsRoundTrip | lib/lib_webgpu.js:180 | low word plus high word times 2^32 is the number |
| JsCodecs.I53Negative | lib/lib_webgpu.js:189-190 | -1 reads back as 2^32 - 1 |
| JsCodecs.LimitWords | lib/lib_webgpu.js:873-882 | `get_limits` writes exactly 34 words: two per 64-bit limit, one per 32-bit limit |
| JsCodecs.GetLimits | lib/lib_webgpu.js:863-883 | writes the limit words at the structure's word index and nothing else |
| JsCodecs.Write64BitLimits | lib/lib_webgpu.js:873-877 | the 64-bit loop writes two words per limit |
| JsCodecs.Write32BitLimits | lib/lib_webgpu.js:879-881 | the 32-bit loop writes one word per limit |
| JsCodecs.ReadSupportedLimits | lib/lib_webgpu.js:893-907 | returns the required limits the 34 structure words describe |
| JsCodecs.Read64BitLimits | lib/lib_webgpu.js:897-900 | one two-word number per 64-bit limit name |
| JsCodecs.Read32BitLimits | lib/lib_webgpu.js:903-905 | one word per 32-bit limit name |
| JsCodecs.Read64At | lib/lib_webgpu.js:898 | the `k`-th number read is the one at words `2k` and `2k + 1` |
| JsCodecs.CollectStep | lib/lib_webgpu.js:898 | one more name and value extend the map only when the value is non-zero |
| JsCodecs.Read64Words | lib/lib_webgpu.js:873-900 | two-word numbers below 2^64 read back as written |
| JsCodecs.Words32Vals | lib/lib_webgpu.js:880 | one-word numbers below 2^32 are stored unchanged |
| JsCodecs.CollectVals | lib/lib_webgpu.js:896-905 | collecting the values of the names adds exactly their non-zero limits |
| JsCodecs.FieldsRoundTrip | lib/lib_webgpu.js:863-907 | the round trip holds for any lists of two-word and one-word fields |
| JsCodecs.LimitsRoundTrip | lib/lib_webgpu.js:863-907 | reading back what `get_limits` wrote yields exactly the non-zero limits, when each value fits its field |
| Dawn.ReleaseAll | lib/lib_webgpu_dawn.cpp:835-842 | exactly the wrappers in the set are released; the others are unchanged |
| Dawn.CompletedState | lib/lib_webgpu_dawn.cpp:1786 | a completed map is writable exactly when the mode has the write bit |
| Dawn.ReportedMapState | lib/lib_webgpu_dawn.cpp:66-71 | never INVALID, and MAPPED exactly for the two mapped states |
| Dawn.Clz32 | lib/lib_webgpu_dawn.cpp:657-682 | the narrowing by 16, 8, 4, 2 and 1 bits returns the leading-zero count |
| Dawn.Registry.constructor | lib/lib_webgpu_dawn.cpp:100 | no wrapper and no registered Dawn object |
| Dawn.Registry.GetDawn | lib/lib_webgpu_dawn.cpp:710-715 | null for the null wrapper, otherwise the wrapper's Dawn object |
| Dawn.Registry.NumLiveObjects | lib/lib_webgpu_dawn.cpp:816-818 | the number of registered Dawn objects; Store, Destroy and DestroyAll state how it moves |
| Dawn.Registry.IsValidObject | lib/lib_webgpu_dawn.cpp:861-863 | a non-null wrapper whose Dawn object is registered; RegisteredResolves and the scenarios state its meaning |
| Dawn.Registry.RegisteredResolves | lib/lib_webgpu_dawn.cpp:861-863 | a registered Dawn object's wrapper is valid and leads back to it |
| Dawn.Registry.WithState | lib/lib_webgpu_dawn.cpp:1782 | only the buffer's state changes |
| Dawn.Registry.Store | lib/lib_webgpu_dawn.cpp:717-728 | allocates a new wrapper, unmapped for a buffer, and points the Dawn object's entry at it; a Dawn object already registered does not raise the count |
| Dawn.Registry.StoreAndSetParent | lib/lib_webgpu_dawn.cpp:730-734 | the same as storing: the parent is not tracked |
| Dawn.Registry.Destroy | lib/lib_webgpu_dawn.cpp:820-833 | nothing for null or an unregistered Dawn object; otherwise that entry goes and the wrapper is released |
| Dawn.Registry.DestroyAll | lib/lib_webgpu_dawn.cpp:835-842 | every registered wrapper is released and the map is emptied |
| Dawn.Registry.MapStateOf | lib/lib_webgpu_dawn.cpp:1871-1875 | the state reported for a buffer |
| Dawn.Registry.CreateBuffer | lib/lib_webgpu_dawn.cpp:1185-1197 | stores the buffer; mapped at creation means mapped for writing |
| Dawn.Registry.MapAsync | lib/lib_webgpu_dawn.cpp:1762-1790 | an unmapped buffer becomes pending; any other buffer is left alone |
| Dawn.Registry.MapCompleted | lib/lib_webgpu_dawn.cpp:1783-1789 | the buffer is mapped as the mode asks |
| Dawn.Registry.MapSync | lib/lib_webgpu_dawn.cpp:1792-1824 | an unmapped buffer ends mapped as the mode asks; any other buffer is left alone |
| Dawn.Registry.GetMappedRange | lib/lib_webgpu_dawn.cpp:1826-1838 | for a mapped buffer, size -1 means the rest of the buffer, and the range is writable only when mapped for writing |
| Dawn.Registry.Unmap | lib/lib_webgpu_dawn.cpp:1853-1859 | a mapped buffer becomes unmapped |
| Dawn.ReleaseKeepsBuffers | lib/lib_webgpu_dawn.cpp:835-842 | releasing wrappers leaves no buffer wrapper without its state |
| Dawn.StoreTwiceScenario | lib/lib_webgpu_dawn.cpp:724 | storing one Dawn object twice counts 1 with both wrappers valid; destroying the first makes both invalid |
| Dawn.IsValidObjectScenario | test/wgpu_is_valid_object.cpp:6-14 | null is never valid; a context is valid until destroyed, and a second context does not revive the first |
| Dawn.DestroyAllScenario | test/wgpu_destroy_all_objects.cpp:6-15 | three live objects, then none after destroy-all, and the device is no longer valid |
| Dawn.BufferLifecycle | lib/lib_webgpu_dawn.cpp:1185-1859 | a buffer created mapped, unmapped, mapped for reading (a second request ignored), then completed, reports MAPPED, UNMAPPED, PENDING and MAPPED in turn |
| DawnFeatures.TableIndex | lib/lib_webgpu_dawn.cpp:103-118 | every index below the table size is a valid entry |
| DawnFeatures.AdapterOrDeviceCheckAsWrittenAcceptsAll | lib/lib_webgpu_dawn.cpp:997 | as written, the assertion holds for every object type, a buffer included |
| DawnFeatures.AdapterOrDeviceCheckRejectsOthers | lib/lib_webgpu_dawn.cpp:1015 | the intended assertion holds exactly for adapters and devices |
| DawnFeatures.FeatureMaskBits | lib/lib_webgpu_dawn.cpp:1001-1008 | bit `j` of the mask over `n` entries is set exactly when `j < n` and entry `j` is held |
| DawnFeatures.MaskOfFirst | lib/lib_webgpu_dawn.cpp:1001-1008 | the loop over the first `n` entries builds that mask |
| DawnFeatures.GetFeatures | lib/lib_webgpu_dawn.cpp:995-1011 | as written: bit `i` exactly for each held entry `i` below 13, so the mask stays below `1 << 13` |
| DawnFeatures.GetFeaturesCorrected | lib/lib_webgpu_dawn.cpp:995-1011 | over the whole table: bit `i` exactly for each held entry of the 14 |
| DawnFeatures.LastFeatureNeverReported | lib/lib_webgpu_dawn.cpp:119 | with 13 an adapter with dual-source blending never reports bit 13; over the whole table it does |
| DawnFeatures.ListOfFirst | lib/lib_webgpu_dawn.cpp:1096-1099 | the loop lists the entries whose bit is set among the first `n`, in order |
| DawnFeatures.RequestDeviceFeatures | lib/lib_webgpu_dawn.cpp:1096-1099 | as written: the entries whose bit below 13 is set, in ascending order |
| DawnFeatures.RequestDeviceFeaturesCorrected | lib/lib_webgpu_dawn.cpp:1096-1099 | over the whole table: the entries whose bit below 14 is set |
| DawnFeatures.RequestedOfMask | lib/lib_webgpu_dawn.cpp:995-1099 | requesting the mask built from a feature set lists exactly the held entries, in table order |
| DawnFeatures.RequestedAgree | lib/lib_webgpu_dawn.cpp:1097 | two masks with the same bits below `n` request the same features |
| DawnFeatures.FeaturesRoundTrip | lib/lib_webgpu_dawn.cpp:995-1099 | over the whole table, a device requested with the adapter's mask gets exactly the adapter's features |
| DawnFeatures.SupportsFeatureAsWritten | lib/lib_webgpu_dawn.cpp:1013-1024 | as written: entry `32 - clz32(feature)`, false from the feature count on; SupportsFeatureAsWrittenShifted states its meaning |
| DawnFeatures.SupportsFeature | lib/lib_webgpu_dawn.cpp:1013-1024 | corrected: entry `31 - clz32(feature)` over the whole table; SupportsAgreesWithGetFeatures states its meaning |
| DawnFeatures.SupportsFeatureAsWrittenShifted | lib/lib_webgpu_dawn.cpp:1017-1024 | as written, `supports_feature(1 << i)` answers for entry `i + 1` and `supports_feature(0)` for entry 0 |
| DawnFeatures.SupportsFeatureAsWrittenOffByOne | lib/lib_webgpu_dawn.cpp:1017 | an adapter with only depth-clip control reports bit 0, yet `supports_feature(1)` is false and `supports_feature(0)` is true |
| DawnFeatures.SupportsAgreesWithGetFeatures | test/wgpu_adapter_supports_feature.cpp:12-17 | with `31 - clz32`, `supports_feature(1 << i)` agrees with bit `i` of `get_features`, and 0 is unsupported |
| CompilationMessage.TypeToString | lib/lib_webgpu.cpp:7-11 | `"warning"` exactly for WARNING, `"info"` exactly for INFO, `"error"` for every other number |
| CompilationMessage.IndexOf | lib/lib_webgpu.js:1160 | `indexOf` is the first position holding the name, or -1 exactly when it is absent |
| CompilationMessage.NamePositionIsType | lib/lib_webgpu.h:1392-1394 | for the three types the name's position in the JavaScript array is the type number |
| CompilationMessage.TypeNameRoundTrip | lib/lib_webgpu.js:1160 | a browser type name comes back unchanged through the number the JavaScript side stores |
| MiniPrintf.Signed | lib/library_miniprintf.js:25 | `val|0` is the signed 32-bit integer equal to the word modulo 2^32 |
| MiniPrintf.RoundUpEven | lib/library_miniprintf.js:13 | `(c + 1) & -2` is the even cursor `c` or `c + 1` |
| MiniPrintf.Convert | lib/library_miniprintf.js:11-28 | a conversion moves past its start (the corrected loop may stop on it), ends after a byte above '9' when it takes a value and on a NUL otherwise, and advances the cursor by 1, or 2 past the aligned cursor |
| MiniPrintf.ScanConversion | lib/library_miniprintf.js:11-28 | the inner loop computes `Convert` |
| MiniPrintf.ScanLoop | lib/library_miniprintf.js:9-30 | the outer loop returns exactly the values and the terminator position of `Scan` |
| MiniPrintf.Scan | lib/library_miniprintf.js:9-30 | the outer loop ends on a NUL, never moves the cursor back, and pushes at most one value per word consumed |
| MiniPrintf.TextBytes | lib/library_miniprintf.js:41 | the decoded text is the bytes from `format` up to the end, cut at the first NUL |
| MiniPrintf.LRun | lib/library_miniprintf.js:3 | `l*` matches the whole leading run of `l` bytes |
| MiniPrintf.MatchLen | lib/library_miniprintf.js:3 | a match of `%l*(u|d)` is empty or at least two bytes of the text |
| MiniPrintf.Rewrite | lib/library_miniprintf.js:43 | the rewrite never lengthens the text |
| MiniPrintf.RewriteWithoutPercent | lib/library_miniprintf.js:43 | text with no `%` passes the rewrite unchanged |
| MiniPrintf.RewriteConversion | lib/library_miniprintf.js:3 | `%u`, `%lu`, `%llu`, `%d`, `%ld` and `%lld` all become `%d` |
| MiniPrintf.PrintEnd | lib/library_miniprintf.js:33 | the end moves back by one exactly when the byte before it is a newline |
| MiniPrintf.Printed | lib/library_miniprintf.js:37-43 | the console arguments start with the format text |
| MiniPrintf.MiniStdio.constructor | lib/library_miniprintf.js:2 | the argument array starts as `[0]` |
| MiniPrintf.MiniStdio.Fprintf | lib/library_miniprintf.js:5-49 | the array becomes the rewritten format text followed by one value per conversion, and `console.error` is used exactly for streams above 1 |
| MiniPrintf.MiniStdio.FprintfCorrected | lib/library_miniprintf.js:9-30 | with the loop stopping on the NUL, the format text is the string up to its terminator |
| MiniPrintf.MiniStdio.Printf | lib/library_miniprintf.js:52-54 | `printf` is `fprintf` to stdout |
| MiniPrintf.MiniStdio.Format | lib/library_miniprintf.js:7-43 | cuts the array back to its placeholder, pushes the scanned values and sets the format text |
| MiniPrintf.FirstNul | lib/library_miniprintf.js:9 | the first NUL at or after `i`, where the C string ends |
| MiniPrintf.CorrectedConvertWithin | lib/library_miniprintf.js:11 | the corrected conversion never moves past the end of its string |
| MiniPrintf.CorrectedStopsAtNul | lib/library_miniprintf.js:9-30 | with the corrected inner loop the scan ends exactly on the string's terminator |
| MiniPrintf.TrailingPercentReadsPast | lib/library_miniprintf.js:11 | as written, `"a%"` followed in memory by `"%d"` scans past the terminator and takes an argument; the corrected loop stops at the terminator |
| MiniPrintf.ConversionCursor | lib/library_miniprintf.js:12-22 | `f` or `ll` takes from the 8-byte-aligned cursor and any other byte above '9' from the cursor itself |
| MiniPrintf.LongLongConversion | lib/library_miniprintf.js:12-18 | `%lld` and `%llu` read the low word, then the high word signed for `%lld` and unsigned for `%llu` |
| VertexBuffer.Pow5 | samples/vertex_buffer/vertex_buffer.c:125 | `pow(5, n)` is at least 1 |
| VertexBuffer.MaxVerticesValue | samples/vertex_buffer/vertex_buffer.c:125 | `MAX_VERTICES` is `2 * 5^7 - 2` |
| VertexBuffer.MinMax3 | samples/vertex_buffer/vertex_buffer.c:32-40 | `min` and `max` are the least and the greatest of the three, and each equals one of them |
| VertexBuffer.OffScreenMeansOutside | samples/vertex_buffer/vertex_buffer.c:62-65 | the early returns fire exactly when all three corners are beyond one side of the clip square |
| VertexBuffer.Quad | samples/vertex_buffer/vertex_buffer.c:74-83 | a visible triangle writes eight vertices, the first being `v0` |
| VertexBuffer.EmittedStart | samples/vertex_buffer/vertex_buffer.c:62-85 | an off-screen triangle writes nothing, and a visible one starts with its eight vertices |
| VertexBuffer.EmittedUnfold | samples/vertex_buffer/vertex_buffer.c:67-94 | one level of the recursion: the eight vertices, then the five sub-triangles in the source's order while the limit stays positive |
| VertexBuffer.EmittedWhole | samples/vertex_buffer/vertex_buffer.c:85-94 | one call writes whole triangles only |
| VertexBuffer.EmittedBound | samples/vertex_buffer/vertex_buffer.c:124-125 | from a limit `r >= 1` one call writes at most `2 * 5^r - 2` vertices |
| VertexBuffer.Splice | samples/vertex_buffer/vertex_buffer.c:84 | writing data over the buffer keeps its length, and the data lands at the offset while the rest is unchanged |
| VertexBuffer.SpliceTwice | samples/vertex_buffer/vertex_buffer.c:84-85 | two writes back to back are one write of both |
| VertexBuffer.Geometry.WriteMappedRange | samples/vertex_buffer/vertex_buffer.c:84 | the mapped buffer gets the data at the offset, in vertex units, and is otherwise unchanged |
| VertexBuffer.Geometry.Divide | samples/vertex_buffer/vertex_buffer.c:60-95 | appends exactly the triangle's emitted vertices at `numVertices`, advancing it by their count and leaving the rest of the buffer as it was |
| VertexBuffer.Geometry.DivideAfter | samples/vertex_buffer/vertex_buffer.c:89-93 | a recursive call extends what the earlier calls of the same level wrote |
| VertexBuffer.Geometry.CreateGeometry | samples/vertex_buffer/vertex_buffer.c:122-150 | a buffer of `MAX_VERTICES` vertices whose first `numVertices` are the emitted vertices of the initial triangle, a multiple of 8 that fits the buffer |
| VertexBuffer.Fits | samples/vertex_buffer/vertex_buffer.c:124-150 | the top-level call writes whole triangles and at most `MAX_VERTICES` vertices |
| VertexBuffer.WritesInsideBuffer | samples/vertex_buffer/vertex_buffer.c:84 | every write of the top-level call lands inside a buffer of `MAX_VERTICES * sizeof(vertex)` bytes |
| GpuOom.AlignUp4 | samples/gpu_oom/gpu_oom.c:44 | `(allocSize + 3) & -4` on a `uint64_t`, wrapping modulo 2^64; AlignUp4Least states its meaning |
| GpuOom.AlignUp4Least | samples/gpu_oom/gpu_oom.c:44 | `(allocSize + 3) & -4` is the least multiple of 4 at least `allocSize` |
| GpuOom.BackOff | samples/gpu_oom/gpu_oom.c:55-57 | the shrunk size fits a `uint64_t` |
| GpuOom.BackOffShrinks | samples/gpu_oom/gpu_oom.c:55-57 | between 4 bytes and 1 GiB a failure sets the size to 4 exactly when `size * 3 / 4` is below 51200, otherwise to `size * 3 / 4`, and shrinks every size above 4 |
| GpuOom.ChunksCover | samples/gpu_oom/gpu_oom.c:61-62 | the writes start at the offset, follow each other without gap or overlap, each writes 1 byte to 4 MiB, and the last ends at the size |
| GpuOom.ChunksTotal | samples/gpu_oom/gpu_oom.c:61-62 | the writes cover exactly the remaining bytes |
| GpuOom.OomSample.constructor | samples/gpu_oom/gpu_oom.c:14-17 | the globals start at 1 GiB, 0 and 0 |
| GpuOom.OomSample.WriteChunks | samples/gpu_oom/gpu_oom.c:61-62 | the loop issues exactly the chunk writes from offset 0 |
| GpuOom.OomSample.AllocGpuBuffer | samples/gpu_oom/gpu_oom.c:41-66 | the buffer size is the aligned size; a failed mapping writes nothing and backs off, a successful one writes every chunk, adds the size modulo 2^64 and records the first success |
| GpuOom.OomSample.Raf | samples/gpu_oom/gpu_oom.c:68-73 | the frame loop goes on exactly when `allocSize > 0`, which always holds |
| GpuOom.SuccessWritesAll | samples/gpu_oom/gpu_oom.c:61-62 | a successful attempt writes exactly `allocSize` bytes from offset 0, in writes no larger than `initialData` |
| GpuOom.AllocSizeNeverZero | samples/gpu_oom/gpu_oom.c:55-57 | from 1 GiB, any sequence of outcomes keeps `allocSize` between 4 bytes and 1 GiB |

## Left out

- Browser and Dawn calls (`destroy()`, `getContext`, `requestAdapter`, `wgpuBufferMapAsync`, `wgpuDeviceHasFeature` and the like) are not modelled. Their results are parameters of the model.
- Everything outside the files listed in the table above is not part of this model: rendering, pipelines, textures, queues, error scopes, callbacks and the offscreen canvas.
- JsRegistry.Registry.Destroy: removes the table entry before visiting the children, where the source removes it after. On links that form no cycle the outcome is the same.
- JsRegistry.Registry.DestroyAll: JavaScript objects that keep a stale `derivedObjects` entry after the table is emptied are not modelled. Object identity is kept only through ids and `wid`.
- Text.Upper: only ASCII letters are upper-cased. The IDL enum names and values are ASCII, so `upper()` and `toUpperCase()` agree with it there.
- JsRegistry.Registry.Probe: requires a free id in the range. The source probes forever when all ids from 2 to 2^31 - 1 are taken.
- Compress.Search: requires that `s` does not mention `wgpuDecodeStrings`. Such a text, left unchanged, would pass the script's test and be `eval`ed as JavaScript, which is not modelled.
- Compress.CollectWinnings: requires a text of two or more characters, where the script's scan ends. Shorter texts make the scan loop forever, which is a finding; the attempt uses GuardedWinnings.
- JsCodecs.FeatureNames: the table is taken from the comment at lib/lib_webgpu.js:375. That the compressed string at line 376 decodes to it is not proved.
- Text.ReplaceAll: JavaScript's `$` replacement patterns are not modelled. No code string contains `$`.
- JsCodecs.WriteI53: the heap is a sequence value that the method returns. Pointer conversion (`replacePtrToIdx`) is taken as already done.
- JsCodecs.I53RoundTrip: the round trip is proved for integers below 2^64. JavaScript numbers are exact only below 2^53, so the source's own promise is the 2^53 range.
- The `WASM_BIGINT` build variant is not modelled.
- Debug-only `wassert` checks are not modelled, except the one at lib/lib_webgpu.js:856, which is a finding.
- The `WGPU_FEATURE_*` constants at lib/lib_webgpu.h:217-226 are not modelled. They number the features differently from the two tables (`SHADER_F16` is 0x80 there but bit 8 in both tables). Only the table order is modelled.
- Dawn.Clz32: the C code shifts a signed `int`; the model takes it as the same 32-bit pattern.
- Dawn.Registry.Destroy: the freed wrapper is kept as a released record. Address reuse by `new` is not modelled.
- `_webgpu_to_dawn`, the Dawn `Release` calls and canvas-context creation in the Dawn backend are not modelled.
- The `default:` assertion of `_wgpu_object_destroy` for render bundles and invalid objects is not modelled.
- The `memcpy` of `wgpu_buffer_read_mapped_range` and `wgpu_buffer_write_mapped_range` is not modelled in the Dawn module, and neither is the `wgpuInstanceProcessEvents` busy-wait of `wgpu_buffer_map_sync`. The map callback's status is ignored, as in the source.
- DawnFeatures: the wrapper type passed to the feature functions is folded into the `has` parameter.
- MiniPrintf.MiniStdio.Fprintf: `%s` values are kept as the pointer (`Str`), `%f` values as the `HEAPF64` index (`F64`). UTF-8 decoding of `UTF8ToString` and `UTF8ArrayToString` is not modelled; the format text is its bytes.
- MiniPrintf.Convert: a typed-array read past the heap gives 0, where JavaScript gives `undefined`; both end the loops.
- MiniPrintf.LongLongConversion: 64-bit values are exact integers in the model. The source adds the two words as JavaScript doubles, which are exact only below 2^53, so above that the value it pushes is rounded (for `%llu` with both words `0xFFFFFFFF` it pushes 2^64).
- MiniPrintf.Convert: the same holds for every `ll` conversion; the model's `Num` value is the exact sum of the words.
- MiniPrintf.Scan: `varArgs >>= 2` is taken as division by 4, and `(c + 1) & -2` as rounding up to even. Both hold for pointers below 2^31.
- The console call itself and the `TEXTDECODER == 2` variant are not modelled.
- VertexBuffer: `float` rounding is not modelled; coordinates are reals.
- VertexBuffer: the `COLOR` values and `emscripten_math_sin` are not modelled, nor are `Render`, the pipeline and the canvas size, which enters as the `scale` parameter.
- VertexBuffer: the `malloc`ed `bufferData` is never used by the sample and is not modelled.
- GpuOom: whether the mapping succeeds is a parameter. Error scopes, callbacks and printing are left out.
- GpuOom: the contents of `initialData` and of the buffer are not modelled, only the list of writes.
- Compress: the random pick among the best five candidates is any candidate. The sort by gain and `Math.random` are not modelled.
- Compress: the printing of the generated library text is not modelled, and neither is the `eval` of the decoder's JavaScript source; evaluation is the model's `Eval`.
- IdlGenerator.Patch: Python's `re.sub` expands backslash escapes in the replacement text; the model inserts the new table and comment literally. No enum string holds a backslash, so the outcome is the same.
- IdlGenerator: the WebIDL parser and file I/O are not modelled; the parsed declarations and the library text are inputs.

## Findings

| source | as written | input that shows it | evidently intended | confidence | as-written member | corrected member |
|---|---|---|---|---|---|---|
| lib/lib_webgpu.js:126 | `return wgpuIdCounter++` after the wrapping probe | counter at 2147483647 with that id free: the store returns 2147483647, the next store returns 2147483648 | the counter wraps to 2 as the probe at line 116 does | medium, not executed | JsRegistry.WrapAsWritten | JsRegistry.WrapCorrected |
| lib/lib_webgpu_dawn.cpp:1017 | `fi = 32 - clz32(feature)` | adapter with only depth-clip control: `get_features` gives 1, `supports_feature(1)` is false, `supports_feature(0)` is true | `31 - clz32(feature)`, as lib/lib_webgpu.js:859 does | high, not executed | DawnFeatures.SupportsFeatureAsWrittenOffByOne | DawnFeatures.SupportsAgreesWithGetFeatures |
| lib/lib_webgpu_dawn.cpp:119 | `_wgpu_num_features = 13` for a 14-entry table | adapter with dual-source blending: bit 13 is never reported nor requested | 14, the size of the table | high, not executed | DawnFeatures.LastFeatureNeverReported | DawnFeatures.FeaturesRoundTrip |
| lib/library_miniprintf.js:11 | the inner loop reads the NUL with `i++` and ends past it | the bytes `a % NUL % d NUL`: the scan goes on past the terminator and takes an argument for `%d` | the scan stops on the string's terminator | high, not executed | MiniPrintf.TrailingPercentReadsPast | MiniPrintf.CorrectedStopsAtNul |
| lib/lib_webgpu.js:856 | the single-feature check tests `adapterOrDevice` | device 3 asking for `shader-f16` fails the check; adapter 2 asking for bits 0 and 1 passes | test `feature` for at most one bit | medium, not executed | JsCodecs.SingleFeatureCheckAsWrittenTestsHandle | JsCodecs.SingleFeatureCheckAcceptsBits |
| scripts/compress_strings.js:48-63 | `for(var len = 2;; ++len)` ends only on `maxCount == 1` | the text `""` or any one-character text: no length finds a substring, `maxCount` stays 0 and the loop never ends | stop the scan with no candidates, so the text comes back unchanged | medium, not executed | Compress.ShortTextScanNeverStops | Compress.GuardedWinnings |
| lib/lib_webgpu_dawn.cpp:997 | `type != kWebGPUDevice \|\| type != kWebGPUAdapter` | a buffer wrapper passes the assertion | `type == kWebGPUDevice \|\| type == kWebGPUAdapter` | high, not executed | DawnFeatures.AdapterOrDeviceCheckAsWrittenAcceptsAll | DawnFeatures.AdapterOrDeviceCheckRejectsOthers |
