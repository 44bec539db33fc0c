# Multi-select prompt state machine

This project models the core of `MultiSelectPrompt`, the terminal widget that
lets a user pick zero or more options from a fixed catalog with the keyboard.
The widget holds three things:

- the option catalog, either a list (each option is its own key and label) or
  a keyed map from selection keys to labels (`Prompts.Catalog`);
- the index of the highlighted option, `highlighted`;
- the ordered list of selected keys, `values`.

Up, left, `k` and `h` move the cursor back and down, right, `j` and `l` move it
forward. Both directions wrap around. Space toggles the highlighted key: every
occurrence is removed when the key is selected, otherwise the key is appended.
Four queries serve renderers and callers: the selected values, the labels, and
whether a key is highlighted or selected.

Everything is in one module, `Prompts` (`multi_select_prompt.dfy`):

- pure specification functions for the cursor arithmetic (`PreviousIndex`,
  `NextIndex`, `NextTimes`, `PreviousTimes`), toggling (`RemoveAll`,
  `Toggled`) and labels (`SelectedLabels`, `LabelsOf`), with lemmas about them;
- the key dispatch table as a function over a closed `Key` datatype;
- the class `MultiSelectPrompt`, whose methods update `highlighted` and
  `values` in place and are proved against those functions, and whose queries
  are functions that read the object;
- two client sessions that replay key sequences on concrete catalogs.

The object invariant `Valid()` says that the catalog is non-empty, that keyed
catalogs have distinct keys (PHP array keys are unique), and that
`0 <= highlighted < Count(options)`. Every method keeps it.

Two behaviours of the code are easy to misread:

- The constructor copies the defaults verbatim (src/MultiSelectPrompt.php:33).
  Duplicate defaults and defaults absent from the catalog stay in `values`.
  They are not collapsed or filtered.
- For a list catalog, `labels()` returns the whole option list whatever is
  selected (src/MultiSelectPrompt.php:60-61). It does not filter to the
  selected entries. Only a keyed catalog is filtered, in catalog order.

## Model

| member | source | states |
|---|---|---|
| Prompts.PreviousIndex | src/MultiSelectPrompt.php:90-93 | moving back gives `(i - 1) mod n`, so 0 wraps to `n - 1`; the result stays in `[0, n)` |
| Prompts.NextIndex | src/MultiSelectPrompt.php:98-101 | moving forward gives `(i + 1) mod n`, so `n - 1` wraps to 0; the result stays in `[0, n)`, hence 0 for a one-option catalog |
| Prompts.MovesAreInverse | src/MultiSelectPrompt.php:90-101 | back then forward, and forward then back, return to the starting index, at 0 and `n - 1` too |
| Prompts.NextTimesIsAddition | src/MultiSelectPrompt.php:100 | `k` forward moves add `k` modulo the catalog size |
| Prompts.PreviousTimesIsSubtraction | src/MultiSelectPrompt.php:92 | `k` backward moves subtract `k` modulo the catalog size |
| Prompts.FullCycle | src/MultiSelectPrompt.php:90-101 | `n` moves in either direction over an `n`-option catalog are the identity |
| Prompts.RemoveAll | src/MultiSelectPrompt.php:113 | the filtered selection no longer holds the key, every other key keeps its number of occurrences, and the length drops by the key's count |
| Prompts.RemoveAllAppend | src/MultiSelectPrompt.php:113 | the filter distributes over concatenation, so the remaining entries keep their relative order |
| Prompts.RemoveAllAbsent | src/MultiSelectPrompt.php:113 | filtering out a key that is not selected leaves the selection unchanged |
| Prompts.Toggled | src/MultiSelectPrompt.php:112-116 | toggling flips the key's membership and keeps every other key's count; a selected key has all its occurrences removed; an unselected key is appended after the unchanged earlier entries |
| Prompts.ToggleTwiceRestoresMembership | src/MultiSelectPrompt.php:112-116 | toggling the same key twice restores which keys are selected |
| Prompts.ToggleTwiceUnselected | src/MultiSelectPrompt.php:112-116 | when the key was not selected, toggling it twice restores the exact selection, order included |
| Prompts.ToggleTwiceSelected | src/MultiSelectPrompt.php:112-116 | when the key was selected, toggling it twice gives the selection with every occurrence of the key removed and one copy appended at the end |
| Prompts.ToggleTwiceReorders | src/MultiSelectPrompt.php:112-116 | the concrete case of that law: toggling `a` twice in `[a, b]` gives `[b, a]` |
| Prompts.SelectedLabels | src/MultiSelectPrompt.php:64 | a label is in the result iff some catalog entry with that label has a selected key; there are no more labels than entries |
| Prompts.SelectedLabelsAppend | src/MultiSelectPrompt.php:64 | keyed labels come out in catalog order: the result splits along any split of the catalog |
| Prompts.SelectedLabelsMembershipOnly | src/MultiSelectPrompt.php:64 | keyed labels depend only on which keys are selected, not on selection order or duplicates |
| Prompts.SelectedLabelsCount | src/MultiSelectPrompt.php:64 | with unique catalog keys there is exactly one label per distinct selected key the catalog has; unknown selected keys give none |
| Prompts.LabelsOf | src/MultiSelectPrompt.php:58-65 | a list catalog yields its whole option list whatever is selected; a keyed catalog yields the selected labels in catalog order |
| Prompts.Keys | src/MultiSelectPrompt.php:108-110 | the key at each index is the list element itself for a list catalog and the entry's key for a keyed catalog; there is one key per option |
| Prompts.Dispatch | src/MultiSelectPrompt.php:35-40 | up, left, `k`, `h` move back; down, right, `j`, `l` move forward; space toggles; every other key is ignored |
| Prompts.MultiSelectPrompt.constructor | src/MultiSelectPrompt.php:27-33 | the cursor starts at 0 and the selection is exactly the given defaults, with no deduplication or filtering |
| Prompts.MultiSelectPrompt.Value | src/MultiSelectPrompt.php:48-51 | returns the selected keys unchanged, in selection order |
| Prompts.MultiSelectPrompt.Labels | src/MultiSelectPrompt.php:58-65 | returns the catalog's labels for the current selection as `LabelsOf` describes |
| Prompts.MultiSelectPrompt.IsHighlighted | src/MultiSelectPrompt.php:70-77 | holds iff the catalog key at the cursor equals the argument; in a keyed catalog no other index carries that key |
| Prompts.MultiSelectPrompt.IsSelected | src/MultiSelectPrompt.php:82-85 | holds iff the argument occurs in the selection |
| Prompts.MultiSelectPrompt.HighlightPrevious | src/MultiSelectPrompt.php:90-93 | the cursor moves to `PreviousIndex` of its old value, stays in range, and the selection is unchanged |
| Prompts.MultiSelectPrompt.HighlightNext | src/MultiSelectPrompt.php:98-101 | the cursor moves to `NextIndex` of its old value, stays in range, and the selection is unchanged |
| Prompts.MultiSelectPrompt.ToggleHighlighted | src/MultiSelectPrompt.php:106-117 | the selection becomes `Toggled` of the old one on the key at the cursor, whose `IsSelected` flips; the cursor is unchanged |
| Prompts.MultiSelectPrompt.HandleKey | src/MultiSelectPrompt.php:35-40 | each key has exactly the effect of its dispatched action; an ignored key changes neither the cursor nor the selection |
| Prompts.ListCatalogSession | src/MultiSelectPrompt.php:35-65 | on the list Red, Green, Blue with no defaults, down, space, down, space selects Green then Blue, leaves the cursor at 2, and labels give the whole list |
| Prompts.KeyedCatalogSession | src/MultiSelectPrompt.php:35-65 | on the keyed catalog r: Red, g: Green with default g, space selects r after g, while the labels follow catalog order: Red, Green |

## Left out

- The `Prompt` base class, the `on('key', …)` event registration and the
  terminal key constants are not part of this model. The handler is the method
  `HandleKey` over a closed `Key` datatype. Since the space key is the
  one-character string `" "`, both `Space` and `Char(' ')` toggle.
- The `$message` and the `$validate` closure are stored by the constructor but
  never used by this logic. The closure is an opaque foreign call, so neither
  is modelled.
- PHP's loose comparison in `in_array` is modelled as plain string equality,
  the same as the strict `!==` in the filter. Numeric-string coercion is a PHP
  artefact.
- PHP array-key bookkeeping is not modelled. `array_filter` keeps the original
  keys, so `value()` may return a non-list array, and `array_keys` turns
  numeric-string keys into integers. The model uses a `seq<string>` for the
  selection and a catalog with an explicit list/keyed tag. A keyed PHP array
  whose keys happen to be `0..n-1` counts as a list in PHP; the model takes
  the tag as given.
- An empty catalog, and a `highlighted` value assigned out of range from
  outside (the field is public), are excluded by `Valid()`. The source does
  not check either; it would index past the catalog.
