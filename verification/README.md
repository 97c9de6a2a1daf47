# df-steam-hook-rs hooks, modelled in Dafny

This project models the hook layer of df-steam-hook-rs (src/hooks.rs). The
module is loaded into the host game, and its replacement routines sit in
front of the host's own text routines:

- **Translation group.** `string_copy_n`, `string_append_n`,
  `std_string_ctor`, `std_string_append`, `std_string_assign`, `addst`,
  `addst_top` and `addst_flag` hand the host's text to `translate_bytes`.
  That routine decodes the bytes as UTF-8 and strips trailing NULs. It then
  records each distinct trimmed text once per run in the pending-translation
  file (`enqueue_for_translation`), and today it never returns a
  translation. So every one of these hooks calls the host's original
  routine with the host's own arguments.
- **Search group.** `simplify_string`, `upper_case_string` and
  `lower_case_string` rewrite a host string in place through a 256-entry
  table. `capitalize_string_words` and `capitalize_string_first_word`
  upper-case word starts outside square brackets.
  `standardstringentry` merges up to eight pending extended-input code
  points into the text being edited, and skips the host's routine when it
  appended something.
- **Group operations.** `attach_all`, `enable_translation`,
  `enable_search`, `enable_all`, `disable_translation`, `disable_search`
  and `disable_all` install, enable and disable the hooks one by one in a
  fixed order. Each stops at the first failure and undoes nothing. A hook
  the platform's build marks `bypass` gets no detour, so its replacement
  routine only runs on the other platform.

Modules:

| file | module | what |
|---|---|---|
| common.dfy | `Common` | bytes, 32-bit code points, `Option`, 256-entry tables |
| utf8.dfy | `Utf8` | UTF-8 as Rust's `str::from_utf8` accepts it (Unicode table 3-7), with an encoder and both round trips |
| text.dfy | `Text` | `str::trim`, `trim_end_matches('\0')`, and the text `translate_bytes` goes on with |
| gateway.dfy | `Gateway` | the seen set and pending file (`TranslationGateway`), with a `Session` value specification |
| cxxstring.dfy | `ForeignString` | the host's `std::string` (libstdc++ layout, 16-byte inline buffer), the Linux inline-pointer fix-up |
| transforms.dfy | `Transforms` | the table rewrites and the two capitalisers, in place |
| string_entry.dfy | `StringEntry` | `standardstringentry` |
| text_hooks.dfy | `TextHooks` | the eight translation-group hooks |
| orchestrator.dfy | `Orchestrator` | the per-hook state machine and the group operations |

The state that changes in place is modelled imperatively:

- The seen set is a field of the `TranslationGateway` class, and the pending file is a ghost sequence next to it.
- The host string's bytes are arrays, rewritten by loops.
- The eight code-point slots of `standardstringentry` are an array.

Each such method is proved against a value-level function (`Enqueued`,
`Mapped`, `CapitalizedWords`, `CapitalizedFirstWord`, `Merge`). The lemmas
state what the source promises about that function. The group operations
are straight-line `?` sequences, so they are modelled as a fold over the
hook list on a registry map.

## Model

| member | source | states |
|---|---|---|
| Utf8.Decode | src/hooks.rs:82-88 | A decoded text never has more characters than there were bytes (which inputs are accepted is pinned down by Utf8.EncodeDecode) |
| Utf8.DecodeEncode | src/hooks.rs:82-88 | Decoding the UTF-8 encoding of any text gives back exactly that text |
| Utf8.EncodeDecode | src/hooks.rs:82-88 | Bytes the decoder accepts are exactly the encoding of the text they decode to |
| Utf8.EncodeNuls | src/hooks.rs:83 | A text consists of NUL characters only iff its encoding consists of zero bytes only |
| Text.Trim | src/hooks.rs:54 | `trim` gives a text with no whitespace at either end, no longer than the input, and empty exactly for blank text |
| Text.TrimIsWindow | src/hooks.rs:54 | What `trim` keeps is one contiguous piece of the text, with nothing but whitespace before and after it |
| Text.TrimIdempotent | src/hooks.rs:54 | Trimming a trimmed text changes nothing |
| Text.TrimTrailingNuls | src/hooks.rs:83 | The result is a prefix of the text, does not end in NUL, and only NULs were removed |
| Text.TextForTranslation | src/hooks.rs:81-93 | The text is None exactly when the bytes are not UTF-8 or are all zero; otherwise it is non-empty, does not end in NUL, and its encoding followed by zero bytes is the input |
| Gateway.Enqueued | src/hooks.rs:53-76 | A non-blank text's trimmed form joins the seen set; the pending file gains at most one record, the trimmed text, exactly when it is new and the file opens and the write succeeds |
| Gateway.Translated | src/hooks.rs:79-98 | Bytes that are not UTF-8 or are all zero change nothing; otherwise nothing seen or written is lost and any new record is the trimmed decoded text |
| Gateway.TranslatedEncoding | src/hooks.rs:79-95 | Bytes that encode a text not ending in NUL are enqueued as exactly that text |
| Gateway.EnqueueKeepsConsistent | src/hooks.rs:53-76 | Each call keeps the pending records distinct, each one seen, and every seen text non-empty and trimmed |
| Gateway.BlankWritesNothing | src/hooks.rs:54-57 | Empty or whitespace-only text changes neither the seen set nor the pending file |
| Gateway.RepeatWritesNothing | src/hooks.rs:60-67 | A second call with the same trimmed text changes nothing, whether or not the first write succeeded |
| Gateway.FirstSightWrites | src/hooks.rs:59-75 | A new non-blank text is added to the seen set and appended to the file when the file opens and the write succeeds |
| Gateway.RunWritesEachTextOnce | src/hooks.rs:53-76 | Over any sequence of calls, records already written stay, no text is written in two records, and every new record is the trimmed form of an offered text |
| Gateway.LostWriteIsNeverRetried | src/hooks.rs:59-75 | A text marked seen whose write failed is never written later in the run |
| Gateway.TranslationGateway.constructor | src/hooks.rs:36 | A new process starts with an empty seen set and an empty pending file |
| Gateway.TranslationGateway.Enqueue | src/hooks.rs:53-76 | `enqueue_for_translation` updates the seen set and file as `Enqueued` says, keeping the gateway invariant |
| Gateway.TranslationGateway.TranslateBytes | src/hooks.rs:79-98 | `translate_bytes` returns None on every path and enqueues the decoded, NUL-stripped text exactly when there is one |
| ForeignString.CxxString.New | src/hooks.rs:272 | A short content is copied inline with the pointer left stale; a long one goes to a heap block that reads back as the content |
| ForeignString.CxxString.FixInlinePointer | src/hooks.rs:274-279 | On Linux a string shorter than 16 bytes is re-aimed at its own inline buffer; length and heap block are kept |
| ForeignString.CxxString.PushBack | src/hooks.rs:380 | `push_back` appends exactly one byte, growing to a fresh heap block when the storage is full |
| ForeignString.BuildHostString | src/hooks.rs:272-279 | A string built for the host reads back as exactly the given bytes, inline iff shorter than 16 bytes, on the heap otherwise |
| Transforms.Mapped | src/hooks.rs:401-430 | The table rewrite keeps the length and maps byte i to the table entry of byte i |
| Transforms.MappedIdempotent | src/hooks.rs:401-430 | With a table that fixes its own results, a second rewrite changes nothing |
| Transforms.ApplyTable | src/hooks.rs:401-430 | `simplify_string`, `upper_case_string` and `lower_case_string` rewrite the content in place to its table image; length, pointer and bytes past the content are unchanged |
| Transforms.CapitalizeFrom | src/hooks.rs:434-501 | The capitalising scan keeps the length and never touches the bytes before the index it starts from |
| Transforms.CapitalizedWords | src/hooks.rs:434-464 | `capitalize_string_words` keeps the length and the brackets and only ever replaces a byte by its uppercase mapping |
| Transforms.CapitalizedFirstWord | src/hooks.rs:468-501 | `capitalize_string_first_word` keeps the length and the brackets and only ever replaces a byte by its uppercase mapping |
| Transforms.CapitalizeFromRule | src/hooks.rs:434-501 | Each byte of the scan's result is its uppercase mapping exactly when the rule applies, judged on the bytes already rewritten; otherwise it is unchanged |
| Transforms.CapitalizedWordsRule | src/hooks.rs:434-464 | Brackets and bytes inside brackets are unchanged; any other byte is upper-cased exactly when it is first or follows a space, a double quote, or an apostrophe after a space or comma |
| Transforms.CapitalizedFirstWordRule | src/hooks.rs:468-501 | Same rule, up to and including the first upper-cased byte that is not a space or double quote; every byte after it is unchanged |
| Transforms.CapitalizedWordsOnOriginal | src/hooks.rs:434-464 | With a table that keeps punctuation, exactly the candidates of the original content are upper-cased |
| Transforms.CapitalizedFirstWordOnOriginal | src/hooks.rs:468-501 | With such a table, the candidates of the original content are upper-cased up to the first one whose mapping ends the scan |
| Transforms.CapitalizeWords | src/hooks.rs:434-464 | `capitalize_string_words` in place yields `CapitalizedWords` of the old content; nothing past the content changes |
| Transforms.CapitalizeFirstWord | src/hooks.rs:468-501 | `capitalize_string_first_word` in place, including its early return, yields `CapitalizedFirstWord` of the old content |
| StringEntry.MergeAppends | src/hooks.rs:367-386 | What is appended is the substitute bytes of the code points before the first NUL or newline, cut to the room below `maxlen`; when nothing is appended the slots are untouched |
| StringEntry.MergeBounds | src/hooks.rs:367-386 | At most 8 bytes are appended, the content never grows past `maxlen`, and nothing is appended once it is at `maxlen` |
| StringEntry.Merge | src/hooks.rs:367-385 | The loop appends no more bytes than the room left below `maxlen` and no more than the slots it reads |
| StringEntry.MergeSlot | src/hooks.rs:367-385 | One turn of the loop stops at a sentinel or a full buffer, appending nothing, with the content and slots then already final; otherwise it keeps or substitutes the slot (appending the byte), and what is left to merge from the next slot still ends at the same content and slots |
| StringEntry.MergePending | src/hooks.rs:367-386 | The loop over the eight slots grows the content by exactly `Merge`'s bytes, leaves the slots as `Merge`'s codes, and reports whether anything was appended |
| StringEntry.StandardStringEntry | src/hooks.rs:353-388 | The content grows by `Merge`'s bytes and the slots become `Merge`'s codes; the original is called iff nothing was appended, and the result is true when something was appended, else the original's result |
| TextHooks.SizedForward | src/hooks.rs:182-189 | Without a translation the host's bytes and size are passed on; with a non-empty one, its length minus one fits its buffer; with an empty one the `usize` subtraction wraps past the buffer |
| TextHooks.SizedTextHook | src/hooks.rs:180-227 | `string_copy_n`, `string_append_n` and `std_string_ctor` offer text only when the size exceeds 1, and always pass on the host's own bytes and size |
| TextHooks.CStrBytes | src/hooks.rs:233 | The bytes before the first NUL: a prefix with no NUL, followed by the NUL |
| TextHooks.CStrTextHook | src/hooks.rs:229-261 | `std_string_append` and `std_string_assign` offer the C string's bytes regardless of length and pass on the host's own pointer |
| TextHooks.CStrTextIsWhole | src/hooks.rs:233-234 | A C string has nothing to strip: it is skipped if empty or not UTF-8 and offered exactly as decoded otherwise |
| TextHooks.AddstForward | src/hooks.rs:269-283 | With a translation, a string of it minus its last byte is built and fixed up; without one, the host's string is used; an empty translation gives nothing usable |
| TextHooks.AddstHook | src/hooks.rs:263-336 | `addst`, `addst_top` and `addst_flag` offer the host string's content and pass on the host's string unchanged |
| Orchestrator.Step | src/hooks.rs:100-176 | A hook marked `bypass` for the platform succeeds and changes nothing; otherwise attaching succeeds only on a resolvable, uninstalled hook and installs it disabled, enable and disable succeed only on installed hooks, and a failure changes nothing |
| Orchestrator.RunGroup | src/hooks.rs:122-132 | A group operation changes only the group's own detoured hooks, fails only with one of its hooks, leaves them all in the target state on success, and enabling or disabling succeeds exactly when the whole group is installed |
| Orchestrator.RunGroupStopsAtFirstError | src/hooks.rs:122-132 | Hooks before the first failure reach the target state, the group fails with the failing hook's error, and all other hooks keep their state |
| Orchestrator.AttachFreshGroup | src/hooks.rs:100-120 | Attaching distinct, resolvable, uninstalled hooks succeeds |
| Orchestrator.GroupsDisjoint | src/hooks.rs:100-117 | No hook belongs to both groups |
| Orchestrator.EveryHookListed | src/hooks.rs:100-117 | Every hook belongs to one of the two groups |
| Orchestrator.AttachAll | src/hooks.rs:100-120 | `attach_all` leaves unselected groups and bypassed hooks alone, fails only in a selected group, and on success leaves every selected detoured hook installed and disabled; the first failure ends it with nothing undone: a translation-group failure leaves the search group untouched, a search-group failure keeps the translation group installed |
| Orchestrator.EnableTranslation | src/hooks.rs:122-132 | `enable_translation` succeeds exactly when the translation group is installed, then enables all of it; it fails only with `NotAttached` and touches no other hook |
| Orchestrator.EnableSearch | src/hooks.rs:134-142 | `enable_search` succeeds exactly when the search group is installed, then enables all of it; it fails only with `NotAttached` and touches no other hook |
| Orchestrator.EnableAll | src/hooks.rs:144-148 | `enable_all` succeeds exactly when both groups are installed, then every detoured hook intercepts; a failure in the translation group leaves the search group untouched, and one in the search group leaves the translation group enabled |
| Orchestrator.DisableTranslation | src/hooks.rs:150-160 | `disable_translation` succeeds exactly when the translation group is installed, then disables all of it; it fails only with `NotAttached` and touches no other hook |
| Orchestrator.DisableSearch | src/hooks.rs:162-170 | `disable_search` succeeds exactly when the search group is installed, then disables all of it; it fails only with `NotAttached` and touches no other hook |
| Orchestrator.DisableAll | src/hooks.rs:172-176 | `disable_all` succeeds exactly when both groups are installed, then no detoured hook intercepts; a failure in the translation group leaves the search group untouched, and one in the search group leaves the translation group disabled |
| Orchestrator.AttachAllInstallsSelectedGroups | src/hooks.rs:100-120 | From a clean process, `attach_all` succeeds and installs the detoured translation hooks iff translation is enabled, the detoured search hooks iff search is enabled and the encoding is parsed, and no bypassed hook |
| Orchestrator.AttachEnableDisableCycle | src/hooks.rs:100-176 | From a clean process, `attach_all`, `enable_all` and `disable_all` all succeed; after `enable_all` exactly the hooks not bypassed on the platform intercept, after `disable_all` none does |
| Orchestrator.EnableAllKeepsPartialWork | src/hooks.rs:100-148 | With only translation attached, `enable_all` fails on `standardstringentry` while the detoured translation hooks stay enabled |
| Orchestrator.AttachAllTwiceFails | src/hooks.rs:100-109 | A second `attach_all` with translation enabled fails on the first detoured translation hook (`std_string_append` on Linux, `string_copy_n` on Windows) and changes nothing |

## Left out

- The detour machinery is not modelled. This covers `retour::static_detour`, the `hook` macro and `original!`. The host's original routines are represented only by the arguments they receive. The `standardstringentry` original's result is a parameter (`originalResult`).
- Per-hook detour semantics are assumed, since the macro and `retour` are not part of this model. A hook marked `hook(bypass)` for the platform (on Linux `string_copy_n`, `string_append_n` and `std_string_ctor`, src/hooks.rs:179, 196, 213; on Windows `std_string_append`, `std_string_assign` and `addst_flag`, src/hooks.rs:229, 246, 313) is taken to install no detour: its attach, enable and disable succeed and change nothing, and its replacement routine is never reached. An unresolved target fails before anything else. Attaching an installed hook fails. Enabling or disabling an uninstalled hook fails. Enabling or disabling an installed one always succeeds.
- Locating the target routines is a parameter (`resolves`). This covers symbol and offset resolution.
- The `ENABLER` symbol (src/hooks.rs:27-34) is left out. It locates no hooked routine; only the unused Linux rebinding at src/hooks.rs:358-361 reads it.
- File and database I/O are not modelled:
  - `debug_log` writes nothing in the model.
  - The pending file is a ghost sequence of records, one per `writeln!`. Whether the file opens and the record's write succeeds is one parameter (`writable`); src/hooks.rs:74 discards the write's own error.
  - A record written only in part (a write that fails midway) is not modelled: a record is either appended whole or not at all.
  - Newlines inside a text are written as they are, so a text holding a newline becomes several physical lines of the file. Only the records are distinct; the file's lines need not be.
  - `llm_cache_lookup` is never called by the hooks.
  - `data_dir` is not modelled.
- The mutex around the seen set is not modelled. The check-and-insert is one sequential step, and concurrent hook calls are out of scope.
- src/cxxstring.rs is not part of this model. `CxxString` is assumed to follow the libstdc++ layout: 15 bytes inline plus a terminator, and a heap block otherwise. `CxxString::new` is assumed to copy a short content inline and leave the data pointer aimed at the inline buffer of the value before it is moved; this stale pointer is what the fix-up at src/hooks.rs:275-277 repairs. That `push_back` appends one byte, moving to a fresh heap block when the storage is full, and that `size()` is the `len` field are likewise assumptions about src/cxxstring.rs. The Windows (MSVC) string layout is left out.
- Raw-pointer reconstruction is replaced by sequences: `from_raw_parts` by the `size` bytes, `CStr::from_ptr` by memory holding a NUL, and `CxxString::from_ptr` by a `CxxString` object. Invalid host pointers are out of scope.
- The Linux rebinding of `utf_a` at src/hooks.rs:358-361 is an inner binding that is never used; the loop at src/hooks.rs:367-386 reads the slots at `utf`. Building it still unwraps `CONFIG.offset` and `utf_input`, and panics when the configuration lacks them; that panic is not modelled.
- Transforms.CapitalizeWords: at index 0, operator precedence at src/hooks.rs:454 makes the source read `content[i - 1]`. The model does not make that read. With overflow checks off and an unchecked index into the host string, the byte at index 0 is upper-cased either way, so the result is the same. With overflow checks on, `i - 1` panics at index 0; that panic is not modelled. The same holds for Transforms.CapitalizeFirstWord at src/hooks.rs:488.
- Transforms.CapitalizeWords: the bracket counter is an unbounded integer, while the source uses an `i32`. Overflow would need more than 2^31 brackets in one string.
- TextHooks.SizedForward and TextHooks.AddstForward model the branch where a translation exists. That branch is unreachable while `translate_bytes` always returns None. On an empty translation, `len - 1` wraps when overflow checks are off (`SizedForward` shows it) and panics when they are on; the panic is not modelled. `AddstForward` gives no string there because `CxxString::new` with a wrapped length has no meaning.
- `std_string_append` and `std_string_assign` pass a translation's buffer on without checking that it holds a NUL. This matters only on the unreachable translation branch and is not modelled.
- Transforms.MappedIdempotent: repeating `simplify_string`, `upper_case_string` or `lower_case_string` changes nothing only when the configured table fixes its own results. The tables come from configuration, so the lemma takes this as a hypothesis.
- No hook consults the translation cache: `llm_cache_lookup` is never called on any hook path, so no cached translation is ever applied.
- Host pointers are not checked before use.
- `df-ptbr-llm-mod/translator/llm_worker.py` (the translation worker), `tools/inspect_cache.py` and `build.rs` are outside the hook layer and not modelled.
