# miki-chat: FAQ import and filter results

This project models two parts of the miki-chat bot in Dafny.

The first is the FAQ import script. It reads the rows of the counselling
spreadsheet (intention, context, question, question variant, answer) and
splits them into blocks by a key column. A row with a non-empty key opens a
new block; a row with an empty key continues the current one. The script
takes the block under the `/bfz` intention and splits it again by context.
A context that opens several blocks keeps only its last block, listed where
the context first opened a block, as a Python dict keeps a reassigned key in
its place. A block whose first row has an empty question is skipped. Every
other block becomes one question, in the order in which each context first
opens a block. Its intent is `bfz_` plus the context without
its first character. It carries the first row's question, every non-empty
variant of the block in row order, and the first row's answer. The
questions are then shaped into a version "2.0" document. It holds one
retrieval intent `faq/<intent>` per question, whose examples are a `- ` list
of the question and its variants. It also holds one response
`utter_faq/<intent>` per intent.

The second is the filter-results action. The filter entities recognised in
a message are intersected with the filters of the filter mapping. An empty
intersection gets the "not understood" answer. Otherwise the action answers
with two things:
- the display names, each in backticks, enumerated in German (`` `a`, `b` und `c` ``);
- a result URL under `https://www.beratungsnetz-migration.de/list` with one
  `/category/f1-f2` segment per category.

Files:
- `strings.dfy` (module `Strings`): Python's `sep.join`, `''.join` and
  `s[1:]` as the two core files use them, and a `Split` on one character
  that the model's readers use, with lemmas relating splitting to joining.
- `dicts.dfy` (module `Dicts`): a Python `dict` with insertion order. A new
  key is appended and an assignment to a present key keeps its position.
- `import_questions.dfy` (module `ImportQuestions`): the import script.
- `filter_results.dfy` (module `FilterResults`): the filter part of the action.

`group_by_column` is modelled as a method with the script's loop. It is proved
equal to a specification function, `Grouped`, which lists the blocks and then
stores them in a dict. The properties of grouping are proved about that
function. Each formatting function has a reader proved to invert it:
- `ParseExamples` reads back the `- ` list;
- `QuotedItems` reads back the backticked enumeration;
- `ParseUrl` reads back the result URL.

## Model

| member | source | states |
|---|---|---|
| ImportQuestions.Grouped | scripts/import_questions.py:33-47 | The specification of `group_by_column`: the blocks (`Blocks`) stored in an ordered dict in turn, which is well formed. Its content is given by `GroupedKeys`, `LaterBlockWins`, `GroupShape` and `GroupsPartitionInput`. |
| ImportQuestions.GroupByColumn | scripts/import_questions.py:33-47 | The loop's dict is exactly the stored blocks of the rows (`Grouped`). It keeps its keys in insertion order. Each pass is `ReadRow` and the final assignment is `CloseBlock`. |
| ImportQuestions.ReadRow | scripts/import_questions.py:37-44 | One pass of the loop on a row keeps the loop's state in step with the blocks read so far. The dict holds every block before the open one, and the open key and rows are the last block. The open key changes exactly when the row has a key, and then becomes that key. |
| ImportQuestions.CloseBlock | scripts/import_questions.py:45-46 | Assigning the open block, if any, under its key (also done at lines 39-40) leaves the dict holding every block read so far, stored in order. |
| ImportQuestions.LeadingOrphans | scripts/import_questions.py:37-44 | Counts the leading rows with an empty key: every row before the count is unkeyed and the row at it is keyed. That these rows are dropped is proved by `BlocksCoverInput`. |
| ImportQuestions.BlocksShape | scripts/import_questions.py:38-44 | Every block starts with the row holding its non-empty key. Every later row of the block has an empty key. |
| ImportQuestions.BlocksCoverInput | scripts/import_questions.py:35-46 | The blocks concatenated in order are the input minus its leading rows with an empty key. No row is lost, duplicated or reordered. |
| ImportQuestions.GroupedKeys | scripts/import_questions.py:38-46 | A key is in the result iff it is non-empty and is some row's cell. |
| ImportQuestions.LaterBlockWins | scripts/import_questions.py:39-41 | A key that opens several blocks is bound to the last such block. |
| ImportQuestions.GroupShape | scripts/import_questions.py:38-46 | Every stored group is non-empty, starts with the row carrying its key, and continues only with unkeyed rows. |
| ImportQuestions.GroupsPartitionInput | scripts/import_questions.py:33-47 | If no key opens two blocks, the items in order are the blocks. Together they are the input minus its leading unkeyed rows. |
| ImportQuestions.NonEmptyVariants | scripts/import_questions.py:55 | A variant is collected iff it is non-empty and occurs in a row of the block. There are at most as many variants as rows. |
| ImportQuestions.VariantsAppend | scripts/import_questions.py:55 | Collecting variants keeps row order: it distributes over concatenation of the rows. |
| ImportQuestions.ToQuestion | scripts/import_questions.py:53-56 | The intent is `bfz_` followed by the key without its first character. The question and answer come from the block's first row. The variants are the block's non-empty variants (`NonEmptyVariants`). |
| ImportQuestions.Questions | scripts/import_questions.py:53-58 | There are at most as many questions as blocks. |
| ImportQuestions.QuestionsMembers | scripts/import_questions.py:53-58 | Each block whose first row has a question yields its question, and every question comes from such a block. |
| ImportQuestions.QuestionsAppend | scripts/import_questions.py:53-58 | Building questions distributes over concatenation of the blocks, so block order is kept. |
| ImportQuestions.QuestionsSingle | scripts/import_questions.py:53-58 | One block yields its question if its first row has a question, and nothing otherwise. With `QuestionsAppend` this fixes the list. |
| ImportQuestions.QuestionsShape | scripts/import_questions.py:53-58 | Every question has a non-empty question text and an intent starting with `bfz_`. |
| ImportQuestions.FormatQuestions | scripts/import_questions.py:60-61 | Each item adds exactly its text plus the three characters of `- ` and the newline. |
| ImportQuestions.FormatQuestionsRoundTrip | scripts/import_questions.py:60-61 | Reading the `- ` list back line by line returns the items, provided no item contains a newline. |
| ImportQuestions.NluEntries | scripts/import_questions.py:67-70 | One entry per question, in order, with intent `faq/` plus the question's intent. Its examples read back by `FaqExamplesRoundTrip`. |
| ImportQuestions.Responses | scripts/import_questions.py:71-74 | The responses form a well-formed ordered dict. Its keys are given by `ResponseKeys` and its values by `ResponseLastWins` and `ResponsesOnePerQuestion`. |
| ImportQuestions.FaqOf | scripts/import_questions.py:64-75 | The version is "2.0". There is one retrieval intent per question, in order, named `faq/` plus the question's intent. The responses form a well-formed ordered dict. |
| ImportQuestions.FaqExamplesRoundTrip | scripts/import_questions.py:67-70 | The examples of each intent read back as the question followed by its variants. |
| ImportQuestions.ResponseKeys | scripts/import_questions.py:71-74 | The response keys are exactly `utter_faq/` plus each question's intent. |
| ImportQuestions.ResponseLastWins | scripts/import_questions.py:72-74 | When intents repeat, the response holds the answer of the last question with that intent. |
| ImportQuestions.ResponsesOnePerQuestion | scripts/import_questions.py:71-74 | With distinct intents, the response keys are in question order and each holds exactly its own question's answer. |
| ImportQuestions.EveryIntentHasResponse | scripts/import_questions.py:67-74 | Every retrieval intent `faq/x` has a response `utter_faq/x`. |
| ImportQuestions.BfzFaq | scripts/import_questions.py:51-75 | Every retrieval intent of the document starts with `faq/bfz_`. |
| ImportQuestions.ImportFaq | scripts/import_questions.py:49-75 | A document is produced iff some row has the intention `/bfz`; otherwise the `gs['/bfz']` lookup fails. Every intent it produces starts with `faq/bfz_`. |
| FilterResults.FormatFilters | data/filter_questions/actions.py:30-37 | The enumeration holds at least the last name and its two backticks. Its full form is `FormatOne` for one name and `FormatShape` for more, and its reading back is `FormatFiltersRoundTrip`. |
| FilterResults.FormatOne | data/filter_questions/actions.py:31-35 | One name gives that name in backticks and nothing else. |
| FilterResults.FormatShape | data/filter_questions/actions.py:30-37 | With two names or more, the enumeration is the first name in backticks, each middle name preceded by `, ` and the last preceded by ` und `. |
| FilterResults.FormatFiltersRoundTrip | data/filter_questions/actions.py:30-37 | The backticked items of the enumeration are exactly the display names, in order, provided no name contains a backtick. |
| FilterResults.SelectFilters | data/filter_questions/actions.py:46-47 | The selected filters are exactly the recognised values that are known filters, each listed once. |
| FilterResults.DisplayNames | data/filter_questions/actions.py:52 | One display name per selected filter, in the same order, taken from the mapping. |
| FilterResults.FiltersWithKey | data/filter_questions/actions.py:61 | A filter is listed under a key iff some pair has that key and filter. |
| FilterResults.FiltersWithKeyAppend | data/filter_questions/actions.py:61 | Listing filters under a key distributes over concatenation of the pairs, so pair order is kept. |
| FilterResults.FiltersWithKeySingle | data/filter_questions/actions.py:61 | One pair contributes its filter exactly when it has the key. With `FiltersWithKeyAppend` this fixes the list. |
| FilterResults.FiltersWithKeyDistinct | data/filter_questions/actions.py:61 | When no filter occurs in two pairs, no filter is listed twice under a key. |
| FilterResults.SelectedFiltersOnce | data/filter_questions/actions.py:46-61 | Under every key of a selection's URL, each filter is listed once. |
| FilterResults.DistinctKeys | data/filter_questions/actions.py:56 | The keys are exactly the categories of the pairs, each once. |
| FilterResults.EachFilterInOwnSegment | data/filter_questions/actions.py:55-62 | Every selected filter's category is among the keys. A filter is listed under a key iff that key is its category. |
| FilterResults.UrlSegments | data/filter_questions/actions.py:60-62 | One segment per key, in key order, each `/key/` followed by the key's filters joined by `-`. Their reading back is `UrlRoundTrip` and their independence of key order is `SegmentOrderIrrelevant`. |
| FilterResults.ResultUrl | data/filter_questions/actions.py:64-65 | The URL starts with the site's `/list` prefix. The rest reads back by `UrlRoundTrip`. |
| FilterResults.UrlRoundTrip | data/filter_questions/actions.py:55-65 | Parsing the result URL gives every key with exactly its filters, provided ids contain no `/` or `-` and categories contain no `/`. |
| FilterResults.SegmentOrderIrrelevant | data/filter_questions/actions.py:56-62 | Any two duplicate-free listings of the same key set produce the same segments, each once. |
| FilterResults.Run | data/filter_questions/actions.py:46-65 | The answer is "not understood" iff no recognised value is a known filter. A found answer's URL starts with the `/list` prefix of the site. |
| FilterResults.RunReadsBack | data/filter_questions/actions.py:46-65 | When something is found, the enumeration reads back as the selected filters' display names and the URL as their categories with their filters. |
| FilterResults.Messages | data/filter_questions/actions.py:49-68 | The action utters one message on the not-understood path and two otherwise. |

## Left out

- Command-line parsing, the Google Sheets client and the YAML dump (`scripts/import_questions.py:1-23, 78-89`): these are I/O. The model starts from the rows and ends at the document value.
- Loading the filter mapping from CSV with pandas (`data/filter_questions/actions.py:22-28`): I/O. The mapping is a parameter of type `map<string, FilterInfo>`.
- The dispatcher and the tracker: the recognised entity values are a parameter, and the uttered texts are returned by `Messages`.
- `fallback.py` is not part of this model.
- FilterResults.SelectFilters: Python lists a set in an order of its own, which the model does not capture. It lists the filters, and likewise the category keys, in the order they first occur. `SegmentOrderIrrelevant` shows that the segments do not depend on the order of the keys. The order of the filters inside one segment (`FiltersWithKeyAppend`) and of the display names does follow the selection order.
- Spreadsheet cells are modelled as strings only. A numeric cell from the sheet would be an int, and `0` would count as an empty key in the `if current_val:` tests.
- The comparison `is not ''` is modelled as inequality with the empty string.
- ImportQuestions.ResponsesOnePerQuestion requires distinct intents. Two context keys that differ only in their first character give the same intent; then the later answer wins, which is what `ResponseLastWins` states.
- ImportQuestions.GroupsPartitionInput requires that no key opens two blocks. Otherwise the earlier block is dropped, which is what `LaterBlockWins` states.
- Display names that are not strings (a missing value in the CSV) are not modelled.
- FilterResults.FormatFilters requires a non-empty list. The `filters[-1]` of the source fails on an empty list, and the action never calls it with one. The unreachable `return filters` after the if/else is not modelled.
- The round-trip lemmas require that the texts do not contain the delimiters that separate them (newline, backtick, `/`, `-`). The source does not escape these.
