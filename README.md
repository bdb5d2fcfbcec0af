# emojipack: pack comparison and snippet UIDs, modelled in Dafny

emojipack turns an emoji database into a snippet pack for the Alfred launcher.
It can also compare two such packs. This project models two pieces of it and
proves properties about them:

- **`compare_packs`** (`src/emojipack/comparison.py`). It drops comment snippets,
  meaning those whose name starts with `#`. It groups each pack's other snippets
  by their payload into an insertion-ordered dict, then reports:
  - `removed`: the payload groups that only the reference pack ("theirs") has;
  - `added`: the payload groups that only the candidate pack ("mine") has.
- **`generate_uid`** (`src/emojipack/snippets.py`). A UID is the keyword, a dash,
  then the uppercase hexadecimal code point of each character of the emoji, with
  dashes between them (`smiley-1F603`).

Files:

- `snippets.dfy` (module `Snippets`):
  - the snippet record `AlfredSnippet`, with its four fields `keyword`, `name`,
    `snippet` and `uid`;
  - hexadecimal numerals (`Hex`, `HexValue`);
  - joining on dashes and splitting on dashes (`JoinDash`, `SplitDash`);
  - `GenerateUid`, and `ParseHexCodes`, a decoder for the hex part used to prove
    that the encoding is injective.
- `pack.dfy` (module `Pack`): `SnippetPack`, which holds a prefix, a suffix and
  a sequence of snippets.
- `comparison.dfy` (module `Comparison`):
  - A Python `dict[str, list[AlfredSnippet]]` is modelled as the sequence of its
    items in insertion order (`Groups`).
  - `GroupSpec` says in closed form what the grouping loop builds: one entry per
    distinct non-comment payload, in order of first occurrence, holding all
    non-comment snippets with that payload, in input order.
  - The method `GroupByEmoji` is the loop itself, with `setdefault(...).append(...)`
    written out as a key lookup (`KeyIndex`) followed by an append or an update.
    It is proved equal to `GroupSpec`.
  - `Without` is the dict comprehension that keeps the items whose key is missing
    from the other dict.
  - `ComparePacks` is `compare_packs`. `Compare` is the function it is proved
    equal to. The properties are lemmas about `Compare`.

Characters are Dafny `char` values, which are Unicode scalar values, so
`c as int` is the code point that Python's `ord(c)` returns. `GenerateUid` is a
function, so equal inputs always give equal UIDs; no lemma is needed for that.

The UID is injective in each argument when the other is fixed
(`UidInjectiveInEmoji`, `UidInjectiveInKeyword`). It is not injective in the
pair: `UidNotJointlyInjective` shows that keyword `smiley` with two U+1F603
characters gets the same UID as keyword `smiley-1F603` with one. The source
does not claim the pair is injective, so this is recorded as a property of the
scheme, not as a defect.

## Model

| member | source | states |
|---|---|---|
| Snippets.JoinDash | src/emojipack/snippets.py:6 | the definition of `"-".join`: the parts in order with one dash between neighbours; `SplitJoin` proves it is undone by splitting on dashes |
| Snippets.HexCodes | src/emojipack/snippets.py:6 | the `hex_codes` value: it is empty exactly when the emoji is empty; `HexCodesFields`, `HexCodesAlphabet` and `HexCodesInjective` state its layout, alphabet and injectivity |
| Snippets.GenerateUid | src/emojipack/snippets.py:4-7 | the definition of `generate_uid`; its properties are stated by `UidLayout`, `UidInjectiveInEmoji`, `UidInjectiveInKeyword` and `SmileyUid` |
| Snippets.Hex | src/emojipack/snippets.py:6 | `{:X}` gives a non-empty string of the digits 0-9 and A-F with no leading zero; its first character is `0` only for the value zero |
| Snippets.HexValueOfHex | src/emojipack/snippets.py:6 | reading the numeral back as a hexadecimal value gives the code point |
| Snippets.HexInjective | src/emojipack/snippets.py:6 | different code points get different numerals |
| Snippets.SplitJoin | src/emojipack/snippets.py:6 | splitting `"-".join(parts)` on dashes gives back `parts`, when there is at least one part and no part contains a dash |
| Snippets.HexCodesAlphabet | src/emojipack/snippets.py:6 | the hex part contains only 0-9, A-F and `-` |
| Snippets.HexCodesFields | src/emojipack/snippets.py:6 | for a non-empty emoji, the hex part has exactly one dash-separated field per character, in input order, and each field is that character's numeral |
| Snippets.ParseHexCodesRoundTrip | src/emojipack/snippets.py:6 | decoding the hex part gives the emoji's code points, including the empty emoji, whose hex part is empty |
| Snippets.HexCodesInjective | src/emojipack/snippets.py:6 | different emoji strings have different hex parts |
| Snippets.UidLayout | src/emojipack/snippets.py:7 | the UID starts with the keyword followed by `-`, and the rest of it is the hex part |
| Snippets.UidInjectiveInEmoji | src/emojipack/snippets.py:6-7 | with the keyword fixed, different emoji strings give different UIDs |
| Snippets.UidInjectiveInKeyword | src/emojipack/snippets.py:7 | with the emoji fixed, different keywords give different UIDs |
| Snippets.SmileyUid | tests/test_snippets.py:24 | keyword `smiley` with U+1F603 gives `smiley-1F603` |
| Snippets.UidNotJointlyInjective | src/emojipack/snippets.py:7 | two different (keyword, emoji) pairs can give the same UID |
| Comparison.IsComment | src/emojipack/comparison.py:32-33 | the definition of `name.startswith("#")` (the same test is repeated at line 37): the name is non-empty and its first character is `#`; `ListedSnippets` proves no such snippet is reported |
| Comparison.KeyIndex | src/emojipack/comparison.py:34 | the dict lookup inside `setdefault`: it returns a position holding the key, or -1 exactly when no entry has that key |
| Comparison.GroupByEmoji | src/emojipack/comparison.py:30-39 | the grouping loop skips comments and runs `setdefault(...).append(...)`; its result equals the closed-form grouping `GroupSpec` |
| Comparison.GroupSnocComment | src/emojipack/comparison.py:32-33 | a comment snippet leaves the dict unchanged |
| Comparison.GroupSnocExisting | src/emojipack/comparison.py:34 | a snippet whose payload is already a key is appended to that key's list, and every other entry stays as it was |
| Comparison.GroupSnocNew | src/emojipack/comparison.py:34 | a snippet with a new payload adds a one-element entry at the end of the dict |
| Comparison.FirstPayloadsOccur | src/emojipack/comparison.py:31-34 | the dict's keys are exactly the payloads of the non-comment snippets, each key appearing once |
| Comparison.FirstPayloadsOrder | src/emojipack/comparison.py:31-34 | the keys are in the order in which their payloads first occur in the pack |
| Comparison.WithPayloadOccurs | src/emojipack/comparison.py:34 | a payload's snippet list is non-empty exactly when a non-comment snippet carries that payload |
| Comparison.GroupingPartition | src/emojipack/comparison.py:30-39 | dict keys are distinct and every list is non-empty; every listed snippet is a non-comment snippet of the pack whose payload is the key; every non-comment snippet is in the list for its payload and in no other list |
| Comparison.GroupingKeepsAll | src/emojipack/comparison.py:30-39 | no snippet is lost or duplicated: taken together, the lists hold the pack's non-comment snippets with multiplicity |
| Comparison.Without | src/emojipack/comparison.py:40-44 | the comprehension keeps exactly the items whose key is missing from the other dict, in their original order |
| Comparison.WithoutDistinct | src/emojipack/comparison.py:40-49 | the comprehension keeps keys distinct |
| Comparison.Compare | src/emojipack/comparison.py:40-50 | the definition of the value `compare_packs` returns; its properties are stated by `RemovedPayloads`, `AddedPayloads`, `AddedRemovedDisjoint`, `SwapArguments`, `ListedSnippets`, `RemovedOrder` and `AddedOrder` |
| Comparison.ComparePacks | src/emojipack/comparison.py:17-50 | `compare_packs` equals `Compare`; the keys of `removed` are the payloads only theirs has, and the keys of `added` are the payloads only mine has |
| Comparison.SwapArguments | src/emojipack/comparison.py:40-50 | swapping the two packs swaps `added` and `removed` |
| Comparison.RemovedPayloads | src/emojipack/comparison.py:40-44 | a payload is a key of `removed` exactly when it occurs in theirs and not in mine; its value is the full ordered group from theirs; keys are distinct |
| Comparison.AddedPayloads | src/emojipack/comparison.py:45-49 | a payload is a key of `added` exactly when it occurs in mine and not in theirs; its value is the full ordered group from mine; keys are distinct |
| Comparison.AddedRemovedDisjoint | src/emojipack/comparison.py:40-49 | `added` and `removed` share no key; a payload present in both packs is in neither; every payload of either pack is in `added`, in `removed`, or in both packs |
| Comparison.ListedSnippets | src/emojipack/comparison.py:30-49 | every snippet listed in `removed` (`added`) is a non-comment snippet of theirs (mine) carrying that key, so no comment snippet from either pack is ever reported |
| Comparison.RemovedOrder | src/emojipack/comparison.py:34-44 | every list in `removed` is non-empty, and its keys are in the order of first occurrence in theirs |
| Comparison.AddedOrder | src/emojipack/comparison.py:39-49 | every list in `added` is non-empty, and its keys are in the order of first occurrence in mine |

## Left out

- `SnippetPack.create_info_plist` and `SnippetPack.write` (`src/emojipack/pack.py`): plist, zip and JSON serialization plus file I/O. The only logic there is naming each archive entry `{uid}.json`.
- `src/emojipack/download.py`: an HTTP fetch and JSON decoding, which is network I/O.
- `src/emojipack/cli.py`: the command line, filesystem output and console echo.
- `AlfredSnippet.from_gemoji` and `AlfredSnippet.to_json` are not part of this model. Their source is not among the files modelled, so the snippet record is just its four fields.
- The richer comparison (presentation-selector, space and keycap buckets, `normalize_emoji`, the keyword comparison) is exercised by `tests/test_comparison.py`. `src/emojipack/comparison.py` does not implement it, so the model follows the code: `compare_packs` returns only `added` and `removed`.
- Dict lookup: Python hashes, while `KeyIndex` scans linearly. Only the result of the lookup is modelled, not its cost.
- Lone surrogates: a Python `str` may hold the code points U+D800 to U+DFFF, which `generate_uid` encodes like any other (`D800`). A Dafny `char` is a Unicode scalar value and cannot hold them, so `GenerateUid` and `HexCodes` are modelled only for strings of Unicode scalar values.
- Python object identity: lists are modelled as values. In the source, the lists in `removed` and `added` are the same objects as those in the grouping dicts. Nothing mutates them afterwards, so the aliasing is not observable here.
