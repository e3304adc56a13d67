# pokemon.py — a Dafny model of the 52poke page scraper's decision logic

`pokemon.py` turns one 52poke wiki page into a JSON record. Each section of
the record comes from its own function. The species' names in other
languages come from `get_names`. The form records come from `get_form_names`
and `get_form_infos`. The Pokédex entries come from `get_flavor_texts`, the
evolution chains from `get_evolution_chains`, and the base stats from
`get_stats`. The HTML queries behind these functions are library calls.
What the functions decide on top of those queries is what this project
models. Each function takes its page section already decoded: rows of table
cells, entity cells carrying `(name, stage, formName)`, condition cells
carrying their raw text, and Pokédex rows carrying their version links and
their mixed text contents.

Files, one module each:

- `wrappers.dfy` — `Option`.
- `text.dfy` — the Python string operations the scraper relies on:
  - `str.strip` with Python's whitespace set
  - `in` on strings
  - `split(sep, 1)`
  - `replace(c, '')`
  - the `\d+%` search
  - `''.join`, which is list flattening on strings
- `evolution.dfy` — `get_evolution_chains`, `get_single_evolution_chain`, `get_evolution_condition`, `split_form_tr_list` and `has_multiple_forms`.
- `flavor.dfy` — `get_flavor_texts`: text assembly, the template filter, and first-occurrence dedup by version name.
- `forms.dfy` — `get_form_names` and `get_form_infos`.
- `stats.dfy` — `get_stats`.
- `names.dfy` — `get_names`.

Where the source works step by step, the model is a method with loops. It
appends to a list, updates a dict row by row, or advances a table pointer.
Each such method is proved equal to a specification function. The
properties the source promises are lemmas about that function: node count,
where `from` links point, distinct version names, mutually exclusive
mega/gmax flags, and French mirroring English. Pure code is modelled as
functions: `split_form_tr_list`, and `get_evolution_condition`'s
split-and-strip.

## Model

| member | source | states |
|---|---|---|
| Text.StripSlice | pokemon.py:404 | `Strip(s)` is one contiguous slice of `s`, and everything dropped before and after it is whitespace |
| Text.StripEnds | pokemon.py:404 | a stripped string is empty or neither starts nor ends with whitespace |
| Text.StripIdempotent | pokemon.py:404 | stripping twice equals stripping once |
| Text.SplitOnceSpec | pokemon.py:406-408 | `split(sep, 1)` gives `[s]` when `sep` is absent; otherwise it gives the two parts around the first `sep`, and those parts rebuild `s` |
| Text.RemoveChar | pokemon.py:276 | `replace(c, '')` leaves no `c` and does not lengthen the string |
| Text.RemoveCharKeeps | pokemon.py:276 | a character survives `replace(c, '')` exactly when it was in the input and is not `c` |
| Text.FirstPercent | pokemon.py:145 | a match of `\d+%` is one or more digits followed by `%` and occurs in the input; there is no match when the input has no `%` |
| Text.FirstPercentFound | pokemon.py:145 | the search returns a match exactly when `\d+%` matches at some position of the input |
| Text.FirstPercentLeftmost | pokemon.py:145 | the match returned is the one at the leftmost matching position, with the whole digit run found there followed by `%` |
| Text.FlattenAppend | pokemon.py:340-343 | flattening a concatenation of row lists concatenates the flattened lists |
| Evolution.GetEvolutionCondition | pokemon.py:384-411 | the forward text never contains `→`; the two split lemmas below give each text in full |
| Evolution.BackTextSplit | pokemon.py:403-406 | `back_text` is `''` without `←`; otherwise it is the stripped text after the first `←` |
| Evolution.ForwardTextSplit | pokemon.py:403-408 | `text` is the whole stripped cell without `→`; otherwise it is the stripped text before the first `→`; `text` never contains `→` |
| Evolution.Conditions | pokemon.py:362-365 | one condition per odd position of the flattened cells, so a sequence of n cells has n/2 of them |
| Evolution.ChainPrefix | pokemon.py:345-381 | the chain built from the first m entity cells is a prefix of the chain built from more of them |
| Evolution.ChainAt | pokemon.py:355-379 | node k is decoded from cell 2k; its condition comes from cell 2k-1 and is absent for the root; its `from` follows the rule applied to node k-1 |
| Evolution.ChainFromRule | pokemon.py:374-377 | a stage change links `from` to the predecessor's name; the same non-base stage carries the predecessor's `from`; the same base stage leaves `from` None |
| Evolution.ChainFromPointsBack | pokemon.py:374-377 | every `from` that is not None names an earlier node of the same chain |
| Evolution.ChainNodeDecoded | pokemon.py:346-382 | n cells give (n+1)/2 nodes; node k carries cell 2k's name, stage and form name; the root has no text, back text or `from`; node k ≥ 1 has the text and back text of cell 2k-1's condition |
| Evolution.TrailingConditionIgnored | pokemon.py:361-381 | a condition cell after the last entity cell changes nothing |
| Evolution.CollectCells | pokemon.py:340-343 | the gathered cells are the rows' direct cells, in order |
| Evolution.EntityNode | pokemon.py:362-377 | the node at an even position carries its cell's entity and the preceding condition, and its `from` follows the stage rule |
| Evolution.EmitAt | pokemon.py:346-381 | one loop step keeps the emitted nodes equal to the chain of the cells seen so far |
| Evolution.GetSingleEvolutionChain | pokemon.py:325-382 | the emitted nodes are exactly the chain of the flattened rows |
| Evolution.BaseLabelCountPositive | pokemon.py:424-431 | the count of `未进化`/`幼年` labels is positive exactly when some label is one of them |
| Evolution.BaseLabelCountMultiple | pokemon.py:424-431 | the count exceeds one exactly when two distinct positions hold a base-stage label |
| Evolution.HasMultipleForms | pokemon.py:424-431 | the answer is true exactly when two distinct labels are `未进化` or `幼年` |
| Evolution.SplitFormTrList | pokemon.py:413-422 | each half has len/2 rows; for an even length the halves rebuild the input; for an odd length only the middle row is missing |
| Evolution.GetEvolutionChains | pokemon.py:300-323 | without a heading the result is the bare sentinel node (`不进化`, no text or link); with several base forms it is the chains of the two halves; otherwise it is one chain of all rows |
| Flavor.CellText | pokemon.py:270-276 | the assembled text contains no ASCII space |
| Flavor.CellTextTrimmed | pokemon.py:276 | the assembled text is empty or neither starts nor ends with whitespace |
| Flavor.AssembleText | pokemon.py:270-276 | the loop over the text cell's contents builds exactly the cell's text |
| Flavor.DedupDistinct | pokemon.py:291-293 | the kept versions have pairwise distinct names |
| Flavor.DedupNames | pokemon.py:282-293 | a name is kept exactly when some candidate with that name is free of template markers |
| Flavor.DedupFirstWins | pokemon.py:282-293 | a version is kept exactly when it is the first marker-free candidate with its name, so a templated entry does not block a later clean one |
| Flavor.DedupOrdered | pokemon.py:293 | the kept versions appear in encounter order |
| Flavor.DedupClean | pokemon.py:282-293 | every kept version is free of template markers and of spaces |
| Flavor.CandidatesHaveNoSpace | pokemon.py:276-289 | every candidate's text is free of spaces |
| Flavor.AddLinks | pokemon.py:278-293 | one row's links are offered, in order, to the versions kept so far |
| Flavor.AddRow | pokemon.py:263-293 | one row offers its candidates, in order, to the versions kept so far; a row without a version table offers none |
| Flavor.AddRows | pokemon.py:262-293 | the nested table/row loops offer every candidate, in order, to the versions kept so far |
| Flavor.GenerationVersions | pokemon.py:258-295 | a generation's versions are the first-occurrence dedup of all its candidates, with `versions` reset per generation |
| Flavor.GetFlavorTexts | pokemon.py:247-298 | one generation record per heading, in order, each built from its own tables |
| Flavor.GenerationProperties | pokemon.py:258-295 | a generation's versions have distinct names, and each is marker-free and space-free |
| Forms.GetFormNames | pokemon.py:46-57 | without a form table the names are exactly `['']`; otherwise they are the stripped header texts, in order |
| Forms.CellsKeepName | pokemon.py:78-136 | the `fulltable` cells never change the name, the flags or the gender rate |
| Forms.FormFlags | pokemon.py:66-74 | the record is named after its form; `is_mega` holds exactly when the name contains `超级`; `is_gmax` holds exactly when the name contains `极巨化` but not `超级`; the two are never both true |
| Forms.GenderRateBoth | pokemon.py:139-153 | a gender rate is recorded exactly when the gender link exists; it is non-None exactly when both spans are found, and then it holds each span's percentage |
| Forms.AbilityOrder | pokemon.py:97-113 | the list has the first cell's links, stripped and not hidden, followed by the second cell's links, stripped and hidden |
| Forms.TypesFromLastCell | pokemon.py:78-86 | the types come from the last cell that has a type link |
| Forms.TypesUntouched | pokemon.py:78-86 | without a type link in any cell, no types are set |
| Forms.CollectTypes | pokemon.py:82-85 | the types are the type spans' texts, each stripped, in order |
| Forms.ReadTypes | pokemon.py:80-86 | a cell with a type link replaces the types with its stripped spans; otherwise the record is unchanged; no other key ever changes |
| Forms.ReadGenus | pokemon.py:89-93 | a cell with a genus link and children sets the genus to its last child's stripped text; otherwise the record is unchanged; no other key ever changes |
| Forms.ReadAbility | pokemon.py:96-113 | a cell with an ability link replaces the abilities with the table's normal then hidden abilities; otherwise the record is unchanged; no other key ever changes |
| Forms.ReadExperience | pokemon.py:116-126 | a cell with an experience link and nested tables sets the experience from the last table; otherwise the record is unchanged; no other key ever changes |
| Forms.CollectAbilities | pokemon.py:98-113 | the ability loops build exactly the specified ability list |
| Forms.LastGenus | pokemon.py:91-93 | the genus is the stripped text of the last child, and is unchanged when there are no children |
| Forms.LastExperience | pokemon.py:118-126 | the experience is that of the last nested table, and is unchanged when there is none |
| Forms.ApplyFullCell | pokemon.py:78-136 | one cell overwrites each key whose label it holds, and leaves the others alone |
| Forms.ApplyCells | pokemon.py:78-136 | the cells are applied in order |
| Forms.CollectEggGroups | pokemon.py:182-188 | each egg group is its link text, stripped, with `群` removed |
| Forms.ReadGender | pokemon.py:139-153 | the gender rate is set only when the gender link exists |
| Forms.ReadShapeAndColor | pokemon.py:156-166 | shape and colour are set only when their links exist |
| Forms.ReadCatchAndEggs | pokemon.py:168-188 | the catch rate and egg groups are set only when their links exist |
| Forms.FormInfoFor | pokemon.py:63-188 | one form's record is exactly the specified record |
| Forms.GetFormInfos | pokemon.py:59-190 | records are made only for table indices below the number of names, and record i is built from `names[i]` and table i |
| Stats.TableList | pokemon.py:436-443 | a toggled first table yields one table per toggle; otherwise the first table alone is used |
| Stats.CollectTables | pokemon.py:436-443 | advancing the table pointer collects exactly the tables that follow the toggled one |
| Stats.GetStats | pokemon.py:444-476 | `common` is the first table's stats; `mega` is the last table's when there are at least two, and None otherwise |
| Names.ReadRow | pokemon.py:203-227 | a row writes each key whose label it contains, and `fr` is tested with the English label |
| Names.ReadRows | pokemon.py:202-227 | the rows are applied in order |
| Names.GetNames | pokemon.py:192-233 | the map starts with the lookup name; the rows follow; Japanese and Korean come last |
| Names.RowsKeepOtherKeys | pokemon.py:202-227 | the rows never touch a key other than their six language keys |
| Names.FrenchMirrorsEnglish | pokemon.py:204-218 | `fr` is present exactly when `en` is, and always equals it |
| Names.EnglishPresent | pokemon.py:204-215 | `en` is present exactly when some row carries the `英文` label |
| Names.EnglishFromLastRow | pokemon.py:213-215 | `en` is the stripped third cell of the last row that carries the `英文` label |
| Names.NamesProperties | pokemon.py:192-233 | `zh_hans` is always the lookup name; `ja` and `ko` are always set; `fr` mirrors `en`; `en` is present exactly when a row is labelled English |

## Left out

- **Fetching and saving.** Fetching the page, saving the record and the `__main__` block are external I/O (pokemon.py:11-19, 479-482).
- **HTML navigation.** BeautifulSoup's `find`, `select`, `find_next`, `parent` and the CSS selectors are not modelled. Each function takes the decoded values those queries produce. This includes `get_pokemon`'s decoding of an entity cell and the filter that skips hidden rows.
- **Entity decoding.** `get_pokemon` is applied to every even-position cell, so each cell carries its decoded entity. A cell from which `get_pokemon` would raise is not modelled.
- **Hidden-element loop** (pokemon.py:21-23). It is not modelled: it names `tag.decompose` without calling it, so it changes nothing.
- **`get_profile`** (pokemon.py:235-245). It is not part of this model. It is a heading query, then a loop that concatenates the text of the following paragraphs after removing their `sup` footnotes, which is DOM mutation.
- **`get_pokemon_data`** (pokemon.py:11-44). Only the way it assembles the sections' results is left; that is a dict literal, and it is not part of this model.
- Text.Strip: Python's `str.isspace` set is written out character by character rather than taken from the Unicode database.
- Text.FirstPercent: `\d` is taken to mean ASCII digits. Python's `\d` also matches other Unicode decimal digits.
- **Crash paths.** Where the source raises instead of degrading, the model either requires the input it needs or makes the case impossible by construction:
  - `.group()` on a failed `\d+%` search becomes the `GenderParses` precondition of `Forms.GetFormInfos`.
  - A missing stats table, or fewer tables than toggles, becomes `Stats.EnoughTables`.
  - Missing landmarks in `get_names`, `get_flavor_texts` and `get_stats`, and too few `td` cells, cannot occur, because the decoded inputs always carry those values.
  - In `get_form_infos`, a genus cell without a link directly under a `td` (pokemon.py:91) and a missing `a`, `span` or `td` after the shape, colour, catch-rate and breeding landmarks (pokemon.py:159, 165, 171-173, 183) cannot occur for the same reason.
  - In `get_evolution_chains`, a table without a `class` attribute (pokemon.py:308) or without a `tbody` (pokemon.py:315) cannot occur either, since the rows and stage labels are given directly.
- Evolution.GetEvolutionChains: the sentinel node has no form name, modelled as `None`. In the source that key is simply absent.
- Forms.FormInfoOf: the record is appended to `infos` before the shape, colour, catch-rate and egg-group sections run (pokemon.py:154). Those sections still change the appended record, because the list holds a reference to the same dict. The model therefore appends the finished record. Aliasing is not modelled.
- Flavor.AssembleText: a bs4 tag is always true, so `if text_td` (pokemon.py:268) always holds. The stale or unbound `text` that a false test would leave is not modelled.
- **Key order.** Python dicts keep insertion order; the model's records and maps do not.
