# Snippets launcher extension — a Dafny model

This project models the core of a launcher extension that stores short text
snippets. Each snippet has an id, a name, a keyword, a language and a body.
Users find snippets by fuzzy-matching the keyword and copy a snippet to the
clipboard. In keyword mode, the words after the keyword fill the `{%0}`,
`{%1}`, … placeholders of the body. Three parts of the Rust source are modelled:

- **The snippet store** (`snippets.dfy`, module `Snippets`, from `src/snippets/mod.rs`).
  The `Snippet` record becomes a datatype, and `Snippet::new` is its
  constructor. The stored list becomes the field
  `snippets` of class `SnippetStore`. `get_snippets` and `write_snippets` read
  and replace that field. `add_snippet`, `delete_snippet` and `edit_snippet` are
  methods. Each is proved against a specification function (`Added`, `Deleted`,
  `Edited`), and lemmas prove what those functions promise: a fresh id, kept
  order, unique ids preserved, idempotence, no-ops.
- **Result building** (`results.dfy`, module `Results`, from `src/results/mod.rs`).
  `handle_results` is a method that returns the views it sends to the launcher,
  in the order it sends them. The three `show_*` loops are methods. Each is
  proved equal to a view function: "the matching snippets, in store order, one
  result each". The placeholder loop is a method proved equal to `Substitute`.
  Lemmas give its properties.
- **Action dispatch** (`actions.dfy`, module `Actions`, from `src/actions/mod.rs`).
  `handle_actions` is a method on a `SnippetStore`. Its contract states what each
  action does to the store, including the blank-field rejection and the panics.
- `strings.dfy` (module `Strings`) holds the Rust standard-library behaviour the
  core relies on. That is `char::is_whitespace`, `trim`, `split_whitespace`,
  `str::replace`, `usize::to_string` and `parse::<usize>`.
  `wrappers.dfy` holds `Option`.

The fuzzy matcher (`SkimMatcherV2::fuzzy_match(choice, pattern).is_some()`) is a
parameter `matches: (string, string) -> bool`. Its first argument is the choice
(the snippet's keyword, or keyword followed by name). Its second is the pattern.

Some statements are true only under a condition; the model states the condition.
"After substitution no `{%i}` with `i` below the word count is left" holds
(`SubstituteRemovesPlaceholders`) when every word avoids the characters
`{`, `%`, `}` and the digits. Without that condition a word can rebuild a
placeholder: body `{%{%0}}` with the word `0` gives `{%0}`
(`WordCanRebuildPlaceholder`). What always holds is the split/join
characterisation of `str::replace`. The text between consumed occurrences
contains no occurrence (`PiecesFree`). Joining those pieces with the pattern
gives back the input (`PiecesJoinBack`). Joining them with the replacement
gives the output (`ReplaceIsJoin`).

## Model

| member | source | states |
|---|---|---|
| `Strings.TrimStart` | src/actions/mod.rs:17 | `trim` drops exactly the leading whitespace: the result is a suffix of the input, everything dropped is whitespace, and the result starts with a non-whitespace character or is empty |
| `Strings.TrimEnd` | src/actions/mod.rs:17 | the same for trailing whitespace: a prefix, everything dropped is whitespace, and the result ends with a non-whitespace character or is empty |
| `Strings.IsWhitespace` | src/actions/mod.rs:17 | `char::is_whitespace`: the characters with the Unicode White_Space property (tab to carriage return, space, U+0085, U+00A0, U+1680, U+2000 to U+200A, U+2028, U+2029, U+202F, U+205F, U+3000) |
| `Strings.Trim` | src/actions/mod.rs:17 | `trim` is `trim_end` after `trim_start`; what it keeps is stated by `TrimKeepsMiddle` |
| `Strings.TrimKeepsMiddle` | src/actions/mod.rs:17 | `trim` returns a stretch of the input with only whitespace before and after it, and the stretch neither starts nor ends with whitespace |
| `Strings.IsBlank` | src/actions/mod.rs:17 | `s.trim().is_empty()`; its meaning is stated by `BlankIffAllWhitespace` |
| `Strings.BlankIffAllWhitespace` | src/actions/mod.rs:17 | `s.trim().is_empty()` holds exactly when every character of `s` is whitespace |
| `Strings.SplitWhitespace` | src/results/mod.rs:112 | `split_whitespace` yields only non-empty words that contain no whitespace |
| `Strings.SplitWhitespaceKeepsText` | src/results/mod.rs:112 | the words, concatenated, are exactly the non-whitespace characters of the input, in order |
| `Strings.SplitWhitespaceEmptyIffBlank` | src/results/mod.rs:112 | there are no words exactly when the text is blank |
| `Strings.SplitWhitespaceWord` | src/results/mod.rs:112 | a non-empty run without whitespace is exactly one word |
| `Strings.SplitWhitespaceAt` | src/results/mod.rs:112 | every whitespace character cuts the text: the words of `a + c + b` are the words of `a` followed by the words of `b`; with the two lemmas above this fixes the split of every text |
| `Strings.Replace` | src/results/mod.rs:117 | `str::replace` with a non-empty pattern, scanning left to right and replacing non-overlapping occurrences; a text shorter than the pattern is returned as it is, and its full meaning is given by the lemmas below |
| `Strings.ReplaceIsJoin` | src/results/mod.rs:117 | `str::replace` writes the replacement exactly where the pieces were separated by the pattern |
| `Strings.PiecesJoinBack` | src/results/mod.rs:117 | the pieces joined with the pattern give back the input |
| `Strings.PiecesFree` | src/results/mod.rs:117 | no piece between the consumed occurrences contains the pattern |
| `Strings.ReplaceAbsent` | src/results/mod.rs:117 | a text without the pattern is returned unchanged |
| `Strings.ReplaceRemoves` | src/results/mod.rs:117 | when the replacement cannot overlap the pattern, the output contains no occurrence of the pattern |
| `Strings.ReplaceKeepsAbsent` | src/results/mod.rs:117 | a string absent from the input that cannot overlap the replacement is absent from the output |
| `Strings.ReplaceKeepsPresent` | src/results/mod.rs:117 | a string present in the input that cannot overlap the pattern is present in the output |
| `Strings.CountPositiveIffOccurs` | src/results/mod.rs:117 | a string is counted at least once in a text exactly when it occurs there |
| `Strings.ReplaceKeepsCount` | src/results/mod.rs:117 | no occurrence of a string that cannot overlap the pattern is lost: the output has at least as many occurrences as the input |
| `Strings.NatToString` | src/results/mod.rs:211 | `to_string` of an id gives a non-empty run of decimal digits without a leading zero |
| `Strings.ParseUsize` | src/actions/mod.rs:31 | `parse::<usize>` succeeds only with a value that fits in a `usize` |
| `Strings.ParseToString` | src/actions/mod.rs:37 | parsing the printed form of an id gives the id back |
| `Strings.NatToStringInjective` | src/results/mod.rs:116 | different indices print differently |
| `Snippets.MaxId` | src/snippets/mod.rs:90 | `max_by_key(id)` over a non-empty store gives an id that some record has and that no record exceeds |
| `Snippets.NextId` | src/snippets/mod.rs:87-97 | the id given to a new record is larger than, and so differs from, every existing id |
| `Snippets.AddToEmpty` | src/snippets/mod.rs:87-88 | adding to an empty store gives exactly one record, with id 0 |
| `Snippets.AddAppends` | src/snippets/mod.rs:81-100 | adding grows the store by one at the end, keeps every earlier record in place, stores each argument in its own field, and gives id max + 1, different from every existing id |
| `Snippets.AddKeepsUniqueIds` | src/snippets/mod.rs:90-97 | pairwise distinct ids stay pairwise distinct after adding |
| `Snippets.Filter` | src/snippets/mod.rs:104-108 | a record is kept exactly when it is in the list and passes the test |
| `Snippets.FilterConcat` | src/snippets/mod.rs:104-108 | filtering a concatenation filters each part, so relative order is kept |
| `Snippets.DeleteRemoves` | src/snippets/mod.rs:103-111 | after deleting an id no record has it, the remaining records are exactly the others, and their order is kept |
| `Snippets.DeleteAbsent` | src/snippets/mod.rs:107 | deleting an id no record has leaves the store unchanged |
| `Snippets.DeleteIdempotent` | src/snippets/mod.rs:104-108 | deleting an id twice is the same as deleting it once |
| `Snippets.DeleteKeepsUniqueIds` | src/snippets/mod.rs:107 | pairwise distinct ids stay pairwise distinct after deleting |
| `Snippets.Edited` | src/snippets/mod.rs:125-139 | editing keeps the length, and each record becomes the new fields under its old id when its id matches, or stays as it was |
| `Snippets.EditKeepsIds` | src/snippets/mod.rs:127-139 | editing keeps the length, order and every id, changes no record with another id, and writes the four new fields into matching records |
| `Snippets.EditAbsent` | src/snippets/mod.rs:127-139 | editing an id no record has leaves the store unchanged |
| `Snippets.EditIdempotent` | src/snippets/mod.rs:127-139 | editing twice with the same values is the same as editing once |
| `Snippets.EditKeepsUniqueIds` | src/snippets/mod.rs:127-139 | pairwise distinct ids stay pairwise distinct after editing |
| `Snippets.SnippetStore.constructor` | src/snippets/mod.rs:51-59 | a first run starts from an empty list |
| `Snippets.SnippetStore.GetSnippets` | src/snippets/mod.rs:66-73 | reading the store returns the stored list |
| `Snippets.SnippetStore.WriteSnippets` | src/snippets/mod.rs:61-64 | writing replaces the stored list |
| `Snippets.SnippetStore.AddSnippet` | src/snippets/mod.rs:75-101 | the new store is `Added(old store, …)`, with arguments in the source order (name, language, keyword, snippet); unique ids are preserved |
| `Snippets.SnippetStore.DeleteSnippet` | src/snippets/mod.rs:103-111 | the new store is `Deleted(old store, id)`, no record has `id` afterwards, and unique ids are preserved |
| `Snippets.SnippetStore.EditSnippet` | src/snippets/mod.rs:113-142 | the record-by-record rebuild gives `Edited(old store, …)`, and unique ids are preserved |
| `Results.Placeholder` | src/results/mod.rs:116 | a placeholder is the text `{%`, then the decimal index, then `}` |
| `Results.PlaceholderShape` | src/results/mod.rs:116 | a placeholder uses only `{ % }` and digits, and has `{` only at its start |
| `Results.PlaceholdersSeparable` | src/results/mod.rs:116 | placeholders with different indices can never overlap in a text |
| `Results.SubstitutePlaceholders` | src/results/mod.rs:112-118 | the enumerate loop computes `Substitute(body, words)`: word `i` replaces every `{%i}`, in ascending order of `i` |
| `Results.SubstituteUntouched` | src/results/mod.rs:112-118 | a body that has no placeholder below the word count is shown unchanged; this includes the case of no words |
| `Results.SubstituteRemovesPlaceholders` | src/results/mod.rs:115-118 | with plain words, no `{%i}` with `i` below the word count is left |
| `Results.SubstituteKeepsHigherPlaceholders` | src/results/mod.rs:115-118 | every occurrence of a `{%j}` with `j` at or above the word count is left in place, whatever the words: the output has at least as many occurrences of it as the body |
| `Results.WordCanRebuildPlaceholder` | src/results/mod.rs:115-118 | a word that is not plain can rebuild a consumed placeholder |
| `Results.SubstitutionIsOrdered` | src/results/mod.rs:115-117 | an example that tells ascending order from descending order: with words `{%1}` and `x`, the body `{%0}` becomes `x`, and descending order would give `{%1}`. The general order is the definition of `Substitute`, which `SubstitutePlaceholders` proves the loop computes |
| `Results.DefaultView` | src/results/mod.rs:44-100 | the default view is a single "Add Snippet" entry whose dialog, under the extension's id, runs `add_snippet` with no arguments |
| `Results.ShowSnippetsResults` | src/results/mod.rs:102-153 | the loop yields `SnippetsView`: one result per snippet whose keyword matches, in store order |
| `Results.ShowEditResults` | src/results/mod.rs:155-230 | the loop yields `EditView`: one result per snippet whose keyword followed by name matches the text, in store order |
| `Results.ShowDeleteResults` | src/results/mod.rs:232-261 | the loop yields `DeleteView`: one result per snippet whose keyword matches the text, in store order |
| `Results.HandleResults` | src/results/mod.rs:16-42 | the views sent, in order. No keyword and empty text: default view, then empty. No keyword and non-empty blank text: only the empty list. Blank means all whitespace, by `BlankIffAllWhitespace`. No keyword and other text: snippets view, then empty. Keyword `e`/`edit`: edit, snippets, empty. Keyword `d`/`delete`: delete, snippets, empty. Any other keyword: snippets, empty |
| `Results.SnippetsViewShape` | src/results/mod.rs:107-150 | one titled result per matching snippet, in store order. The copy payload equals the displayed text. Without a keyword, that text is the unmodified body |
| `Results.KeywordWithoutWordsShowsBody` | src/results/mod.rs:112-118 | in keyword mode with no words after the keyword, every displayed text is the unmodified body |
| `Results.EditViewShape` | src/results/mod.rs:160-227 | one edit entry per matching snippet, in store order; its dialog action is `edit_snippet` and its only argument is the snippet's id |
| `Results.DeleteViewShape` | src/results/mod.rs:237-258 | one delete entry per matching snippet, in store order. It displays the body. Its extension action is `delete_snippet`, and its only argument is the snippet's id |
| `Actions.HandleActions` | src/actions/mod.rs:7-41 | **add:** blank name, keyword or snippet gives "Empty Fields" and no change; language is not checked; otherwise `Added` with each field in its own parameter. **edit:** no blank check; edits the id in the first dialog argument. **delete:** deletes the id in the first custom argument. A missing action, response, field or argument, or a failed parse, panics and changes nothing. Any other action changes nothing. Unique ids are preserved |
| `Actions.EditEntryTargetsItsSnippet` | src/actions/mod.rs:31 | the argument an edit entry carries parses back to the id of the snippet it was built for |
| `Actions.DeleteEntryTargetsItsSnippet` | src/actions/mod.rs:37 | the argument a delete entry carries parses back to the id of the snippet it was built for |

## Left out

- File and JSON persistence is not modelled: `get_snippets_dir`, `get_snippets_path`, the directory creation in `init_snippets`, and serde. The store is an in-memory list. A file that fails to parse reads as an empty list in the source (src/snippets/mod.rs:69-72). Here that is only the empty list the store starts with.
- The fuzzy matcher `SkimMatcherV2` is a foreign library. It is the parameter `matches`, so nothing is assumed about its scoring.
- `get_search` is a library function. The `Search` it produces is an input.
- Icons are not modelled: `get_icon`, `get_language_icon`, `tint_icon` and src/icons/mod.rs. Results carry no icon.
- Dialog field construction, the fixed language list and the primary button text are not modelled. They are constants for the user interface. Dialog actions keep their extension id, title, action name and arguments.
- Host calls are replaced. `send_extension_results` appends a view to the returned list. `get_extension_dialog_response` and the context fields are parameters. `send_notification` followed by `exit(0)` is the outcome `EmptyFields`.
- src/main.rs only dispatches on the host context and is not modelled.
- Ids are unbounded naturals. The source's `usize` overflow is not modelled: `latest_id + 1` panics or wraps when the largest id is `usize::MAX`. Parsing does reject values above the 64-bit `usize` maximum.
- `str::replace` is modelled only for a non-empty pattern. Placeholders are never empty.
- Results.SubstituteRemovesPlaceholders: the guarantee assumes that every word is free of `{`, `%`, `}` and digits. Without that assumption the guarantee is false, as `Results.WordCanRebuildPlaceholder` shows.
