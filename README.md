# Drug-information scraper: a Dafny model

This project models the core of `sp/sp/temp.py`, a script that works in four steps:

1. It scrapes up to fifty drug pages from a listing page.
2. From each page it extracts a record of three fields: drug name, uses and side effects. A field whose anchor is missing holds the sentinel `'N/A'`.
3. It cleans the table: it removes punctuation from names, strips them, lowercases the two text columns and drops records with a repeated name.
4. It analyses the table. It counts the distinct names, the five most common bigrams of informative words in the uses texts, and the most common informative side-effect word.

Modules, one concept each:

- `Text` (text.dfy): the Python string primitives the script relies on. These are `strip` (with the exact `str.isspace` whitespace set), `lower`, `isalpha`, `join`, `replace('\n', ' ')` and the `in` substring test.
- `Dedup` (dedup.dfy): keep-first deduplication by a key. It serves both `drop_duplicates(subset=...)` and the key order of a `Counter`.
- `Extraction` (extraction.dfy): `scrape_drugs` and `scrape_drug_info`.
  - A parsed page is its tags in document order. Each tag has a name, an `id`, a `.string`, a `.text` and its parent's position.
  - `find`, `find_next` and `find_next_sibling` are searches over that sequence.
  - The side-effects loop is a `while` loop over a cursor, proved against the function `SectionText`.
- `Normalize` (normalize.dfy): `clean_data`. The table is an array of records. Three `forall` statements update it in place, one per column assignment. A deduplicated copy is returned.
- `Frequency` (frequency.dfy): the stopword set, the token filter, bigrams, and a `Counter` class.
  - The class has a `counts` map, its key `order` and a ghost history `seen`.
  - `most_common(n)` is a stable sort by descending count followed by a prefix of `n` entries. This is what `heapq.nlargest` returns: it is equivalent to `sorted(..., reverse=True)[:n]`.
- `Analysis` (analysis.dfy): `analyze_data` and `main`.

## Model

| member | source | states |
|---|---|---|
| Text.TrimStartSpec | sp/sp/temp.py:54 | leading-whitespace removal returns a suffix of its input; every removed character is whitespace; the result does not start with whitespace |
| Text.TrimEndSpec | sp/sp/temp.py:54 | trailing-whitespace removal returns a prefix; every removed character is whitespace; the result does not end with whitespace |
| Text.StripSpec | sp/sp/temp.py:43 | `strip()` yields a string that neither starts nor ends with whitespace and sits inside its input between an all-whitespace prefix and an all-whitespace suffix |
| Text.StripTrimmed | sp/sp/temp.py:63 | stripping an already trimmed string changes nothing |
| Text.LowerIsLower | sp/sp/temp.py:64 | `lower()` leaves no upper-case letter, keeps every other character and maps each upper-case letter to its lower-case letter |
| Text.LowerIdempotent | sp/sp/temp.py:64-65 | lowercasing twice is lowercasing once |
| Text.JoinAppend | sp/sp/temp.py:56 | `' '.join` of one more part is the previous join, the separator, then the part |
| Text.ReplaceNewlines | sp/sp/temp.py:56 | `replace('\n', ' ')` keeps the length, turns every newline into a space, keeps every other character and leaves no newline |
| Text.Contains | sp/sp/temp.py:44 | `'What is' in text` holds exactly when the marker occurs at some position |
| Extraction.FindFrom | sp/sp/temp.py:43-48 | `find`/`find_next` return the first matching tag at or after the start position, and report none exactly when no later tag matches |
| Extraction.NextWithParent | sp/sp/temp.py:50-55 | `find_next_sibling` returns the first later tag with the same parent, and none when there is no such tag |
| Extraction.WalkSpec | sp/sp/temp.py:50-55 | the sibling walk visits exactly the later siblings before the first `h2` sibling, in increasing document order |
| Extraction.SectionIndicesSpec | sp/sp/temp.py:48-55 | the section of the side-effects heading is exactly its siblings strictly before the next `h2` sibling (or the page end), in order, and never contains an `h2` |
| Extraction.CollectFromTexts | sp/sp/temp.py:51-55 | the loop appends the stripped text of exactly the visited siblings, in visiting order |
| Extraction.TextsAt | sp/sp/temp.py:54 | the collected parts are, position by position, the stripped text of each listed tag |
| Extraction.CollectSection | sp/sp/temp.py:47-56 | the loop's joined text equals the space-joined stripped texts of the section, with newlines replaced; it contains no newline |
| Extraction.ScrapeDrugInfo | sp/sp/temp.py:39-60 | the record is the page's name, uses and side-effects fields; each field is `'N/A'` when its anchor is missing; uses is also `'N/A'` when no `p` follows the heading; side effects never contain a newline |
| Extraction.HrefsAppend | sp/sp/temp.py:29 | the href list of consecutive anchor runs is the concatenation of their href lists |
| Extraction.HrefsOne | sp/sp/temp.py:29 | `find_all('a', href=True)` keeps an anchor's href when it has one and drops an anchor without one; with the concatenation lemma this fixes the href list as the present targets in order |
| Extraction.HrefsAllPresent | sp/sp/temp.py:29 | when every anchor has an href, the list holds each anchor's href in order |
| Extraction.DrugLinksSpec | sp/sp/temp.py:29 | the links are the first min(50, n) hrefs in document order; anchors after the fiftieth href never change them |
| Extraction.RowsFor | sp/sp/temp.py:31-34 | one record per link, in link order, each the extraction of the page fetched from the site root followed by the link |
| Extraction.ScrapeDrugs | sp/sp/temp.py:19-37 | the raw table is the records of the followed links; it is empty when the listing container is missing; it has at most 50 rows |
| Dedup.FirstIndex | sp/sp/temp.py:66 | the position of a key's first occurrence: it holds that key and no earlier element does |
| Dedup.KeepFirstSpec | sp/sp/temp.py:66 | keep-first deduplication keeps exactly the first element of each key, covers every key, and keeps the order of first occurrences, so keys are distinct |
| Dedup.KeepFirstDistinct | sp/sp/temp.py:66 | deduplicating a sequence whose keys are already distinct changes nothing |
| Dedup.KeepFirstIdempotent | sp/sp/temp.py:66 | deduplicating twice is deduplicating once |
| Dedup.KeepFirstElements | sp/sp/temp.py:66 | every kept element is an element of the input |
| Normalize.RemoveDisallowed | sp/sp/temp.py:63 | the regex removal leaves only letters, digits and whitespace, never lengthens a name, and leaves such a name unchanged |
| Normalize.RemoveDisallowedCount | sp/sp/temp.py:63 | removal keeps every occurrence of a letter, digit or whitespace character and no occurrence of any other character |
| Normalize.RemoveDisallowedChar | sp/sp/temp.py:63 | on a single character, removal keeps it exactly when `[^a-zA-Z0-9\s]` does not match it; with the concatenation lemma this fixes the result as the surviving characters in order |
| Normalize.RemoveDisallowedAppend | sp/sp/temp.py:63 | removal works character by character: it distributes over concatenation |
| Normalize.StripKeepsNameChars | sp/sp/temp.py:63 | stripping a string of letters, digits and whitespace leaves such a string |
| Normalize.CleanName | sp/sp/temp.py:63 | a cleaned name holds only letters, digits and whitespace, is trimmed and is no longer than the input |
| Normalize.CleanNameFixesClean | sp/sp/temp.py:63 | cleaning leaves a clean name unchanged |
| Normalize.CleanNameIdempotent | sp/sp/temp.py:63 | cleaning a name twice is cleaning it once |
| Normalize.CleanRecord | sp/sp/temp.py:63-65 | a cleaned record has a clean name and two lowercase text fields |
| Normalize.CleanRecordFixesClean | sp/sp/temp.py:63-65 | cleaning leaves a clean record unchanged |
| Normalize.CleanColumns | sp/sp/temp.py:63-65 | the column assignments keep the row count and clean each row |
| Normalize.CleanData | sp/sp/temp.py:62-66 | the table is updated in place to its cleaned columns, and the deduplicated cleaned table is returned |
| Normalize.DropDuplicatesSpec | sp/sp/temp.py:66 | `drop_duplicates` keeps exactly the first record of each name, every name survives, first-occurrence order is kept and names are distinct |
| Normalize.NormalizedSpec | sp/sp/temp.py:62-66 | after cleaning, every record is clean, no two records share a name, and no row is added |
| Normalize.CleanColumnsFixesClean | sp/sp/temp.py:63-65 | the column assignments leave a clean table unchanged |
| Normalize.NormalizedIdempotent | sp/sp/temp.py:62-66 | cleaning a cleaned table changes nothing |
| Normalize.NameSetDistinct | sp/sp/temp.py:69 | in a table without repeated names, `nunique` equals the number of rows |
| Normalize.NormalizedUniqueCount | sp/sp/temp.py:69 | after cleaning, the distinct-name count equals the number of records |
| Frequency.StopWords | sp/sp/temp.py:14-17 | the stopword set is exactly the English list together with the sixteen domain words |
| Frequency.FilterTokens | sp/sp/temp.py:76 | the filter never lengthens the token list and keeps only alphabetic non-stopwords |
| Frequency.FilterTokensCount | sp/sp/temp.py:85 | the filter keeps every occurrence of a kept word and no occurrence of any other word |
| Frequency.FilterTokensAppend | sp/sp/temp.py:76 | the filter works token by token, in order: it distributes over concatenation |
| Frequency.Bigrams | sp/sp/temp.py:77 | `ngrams(tokens, 2)` joined by a space gives one item per adjacent pair, pair i being token i, a space, then token i+1 |
| Frequency.Tally | sp/sp/temp.py:78 | a counter's items are the distinct elements in first-occurrence order, each with its number of occurrences |
| Frequency.TallySpec | sp/sp/temp.py:73-78 | the tally lists each counted element exactly once, in first-occurrence order, with its exact count of at least one |
| Frequency.InsertDescending | sp/sp/temp.py:79 | inserting into a descending list keeps it descending |
| Frequency.InsertWithCount | sp/sp/temp.py:79 | an inserted entry goes before every entry with its own count |
| Frequency.SortDescSpec | sp/sp/temp.py:79 | the sort orders entries by descending count and keeps entries of equal count in input order |
| Frequency.SortedPrefixTies | sp/sp/temp.py:79 | the ties of a sorted prefix are a prefix of the input's ties |
| Frequency.SortedPrefixDominates | sp/sp/temp.py:79 | no entry a sorted prefix leaves out has a larger count than an entry it keeps |
| Frequency.TopK | sp/sp/temp.py:79 | `most_common(n)` returns min(n, size) entries taken from the input, in descending count with ties in insertion order; no omitted entry outranks a kept one |
| Frequency.TopKLeader | sp/sp/temp.py:87 | an entry whose count beats every other entry's is reported first |
| Frequency.CountOne | sp/sp/temp.py:78 | counting one element bumps its count, or adds it with count one at the end of the key order; either way the counter stays consistent |
| Frequency.Counter.constructor | sp/sp/temp.py:73 | a new counter is empty and consistent |
| Frequency.Counter.Add | sp/sp/temp.py:78 | counting one element keeps the counter consistent with everything counted, now including that element |
| Frequency.Counter.Update | sp/sp/temp.py:78 | `update(items)` counts every item, in order |
| Frequency.Counter.Items | sp/sp/temp.py:78 | the counter's items are the tally of everything counted |
| Frequency.Counter.MostCommon | sp/sp/temp.py:79 | `most_common(n)` is the top n entries of that tally |
| Analysis.UsesBigramsKept | sp/sp/temp.py:74-78 | every counted uses item is two alphabetic non-stopwords joined by a space |
| Analysis.SideEffectWordsKept | sp/sp/temp.py:83-86 | every counted side-effect item is an alphabetic non-stopword |
| Analysis.SideEffectWordsCount | sp/sp/temp.py:83-86 | a kept word's count equals its number of occurrences among all side-effect tokens; every other word's count is zero |
| Analysis.TallyNonEmpty | sp/sp/temp.py:78 | a counter fed at least one element has at least one item |
| Analysis.TopKTallyEntries | sp/sp/temp.py:79 | `most_common(n)` reports min(n, distinct) entries, each a counted element with its exact count |
| Analysis.TopKTallyDominates | sp/sp/temp.py:79 | no element missing from `most_common(n)` occurs more often than a reported one |
| Analysis.MostCommonSideEffect | sp/sp/temp.py:82-87 | `most_common(1)` is empty exactly when no word was kept; otherwise it is one kept word with its full token count, and no kept word occurs more often |
| Analysis.MostCommonUses | sp/sp/temp.py:73-79 | `most_common(5)` reports min(5, number of distinct bigrams) entries, each a bigram of kept words with its exact count; no omitted bigram is more frequent than a reported one |
| Analysis.CountUses | sp/sp/temp.py:73-79 | the loop feeding every row's bigrams to a fresh counter yields the top five of their tally |
| Analysis.CountSideEffects | sp/sp/temp.py:82-87 | the loop feeding every row's kept words to a fresh counter yields the top one of their tally |
| Analysis.AnalyzeData | sp/sp/temp.py:68-87 | the analysis is the distinct-name count, the top five uses bigrams and the top side-effect word of the table |
| Analysis.NormalizedNonEmpty | sp/sp/temp.py:91-93 | cleaning a non-empty table leaves at least one record |
| Analysis.RunPipeline | sp/sp/temp.py:89-97 | there is no data exactly when nothing was scraped; otherwise the table is the cleaned scrape, it has between 1 and 50 records with pairwise distinct names, the reported count is its `nunique` of names and equals its row count, and the analysis uses the extended stopwords |

## Left out

- HTTP requests, `time.sleep` and failed requests are not modelled. The listing is given as the anchors of its `ddc-list-column-4` container, absent when the page lacks one. Every other page comes from a function `fetch` from URL to parsed page.
- HTML parsing by BeautifulSoup is not modelled. A page is given already parsed, as its tags in document order. An anchor is reduced to its optional `href`, and `find_all('a', href=True)` to dropping anchors without one.
- `nltk.download` and the English stopword corpus are replaced by a parameter `english`. `nltk.word_tokenize` is replaced by a parameter `tokenize`, about which nothing is assumed.
- `print`, `main`'s messages and `to_csv` are output only and are not modelled.
- pandas DataFrame plumbing is not modelled. A table is a sequence of records; `clean_data` works on an array of them.
- `dropna` is not modelled. Every scraped field is a string, so it removes nothing.
- `Text.LowerIsLower`: `str.lower` and `str.isalpha` are modelled for ASCII letters only. Non-ASCII letters are treated as non-letters and are left unchanged by lowercasing.
- `Normalize.RemoveDisallowed`: line 63 is modelled as a regular-expression replacement. This is what pandas did before 2.0, when `str.replace` defaulted to `regex=True`. With pandas 2.0 or later the pattern is taken literally and the line removes nothing.
- `Extraction.WalkSpec`: the walk stops only at an `h2` sibling (sp/sp/temp.py:52). Headings of other levels among the siblings are collected as text.
- Pages without an `h1`, and the name `'N/A'`, are kept as the code has them. Such names are cleaned to `NA`, so deduplication merges all records lacking a title into one.
