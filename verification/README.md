# HesseAssistant analysis core in Dafny

HesseAssistant is a Streamlit application. It reads a book (TXT, PDF or EPUB) and shows:

- text statistics;
- a word cloud of lemmas;
- tables of the named entities found by Natasha;
- a graph of which entities are mentioned near each other.

This project models the deterministic core behind those views:

- `extract_text` — dispatch on the file suffix, the TXT header scan, and the metadata fallbacks.
- `normalize_with_morph`.
- The named-entity catalog of `extract_named_entities_natasha`.
- The token counter of `get_word_frequencies`.
- The windowed co-occurrence tally and graph of `create_character_interaction_graph`.
- The decisions of `analyze_book`:
  - when the word cloud, the entity tables and the graph are produced;
  - the frequency threshold;
  - the top-10 tables.

Modules, in dependency order:

- `Wrappers`: `Option`.
- `Strings`: Python's `split`, `split(sep)`, `strip`, `splitlines`, `endswith`, `in` and `join` on `seq<char>`.
- `Dicts`: insertion-ordered dictionaries and `collections.Counter`.
- `Sorting`: the stable `sorted(..., reverse=True)` and the `[:n]` slice.
- `Stats`: `modules/stats.py`.
- `Interactions`: the graph builder of `modules/analysis.py`.
- `Analysis`: `analyze_book`.
- `Parser`: `modules/parser.py`.

Python dictionaries keep insertion order, and the results depend on it:

- which keys are "first";
- which `add_edge` call writes an edge's weight last.

So a dictionary is modelled as a map together with its key order.

The NLP services are inputs. They are:

- the NER spans (tag and normal form);
- the spaCy tokens;
- pymorphy2's base form and `str.lower`, as the two functions of a `Morph`.

Python's set iteration order is a parameter `arrange`. `arrange` lists every set once each, in some order. The graph results are stated for every such order.

The model follows the code, including where the code does not do what its docstrings and comments suggest:

- **Top-10 per tag.** The ranking key of the "top-10 per tag" selection is `interactions[f"{x} - {x}"]`. No pair of a name with itself is ever counted, so this key is always zero. Because the sort is stable, the "top 10" of a tag are simply its first ten keys (`TopKeysPrefix`).
- **The filter.** The filter keeps every tallied pair string that contains a top key as a substring. So an edge between two names that are not top keys can survive the filter.
- **Counts across window sizes.** A pair's count is the number of windows holding both names. Windows overlap and their number shrinks as the window grows, so counts for different window sizes are not ordered.
- **Names containing `" - "`.** The names are split back out of the pair string with `split(" - ")`. A name containing `" -"` can make this unpacking fail (`UnpackError`) or give the wrong halves. Every graph property is therefore stated for names with no space directly followed by a hyphen (`SeparatorFree`).

## Model

| member | source | states |
|---|---|---|
| Interactions.CreateGraph | modules/analysis.py:108-182 | no contract of its own: the model of `create_character_interaction_graph`; see `CreateGraphShape` and `CreateGraphTooFewSentences` |
| Interactions.BuildIndex | modules/analysis.py:126-131 | no contract of its own: the `entities` index; see `BuildIndexMeaning` |
| Interactions.Tally | modules/analysis.py:123-163 | no contract of its own: the `interactions` Counter after the window loop; see `TallyPairs`, `TallyNoSelf` and `TallyKeyShape` |
| Interactions.Present | modules/analysis.py:144-150 | no contract of its own: `characters_in_context`; see `PresentMeaning` |
| Interactions.SentencesMeaning | modules/analysis.py:123 | the sentences are the pieces of `text.split(".")`: one more than the number of full stops, none containing a full stop, rejoined by "." into the text; the empty text is one empty sentence |
| Interactions.TallyTooFewSentences | modules/analysis.py:137 | a window wider than the number of sentences leaves the interaction counter empty |
| Interactions.CreateGraphTooFewSentences | modules/analysis.py:137-182 | with such a window the graph is built and has no nodes and no edges |
| Interactions.BuildIndexMeaning | modules/analysis.py:126-131 | `entities` has a table for exactly the selected tags with at least one catalog key, mapping each normalised key to the last catalog key normalising to it |
| Interactions.NameTableKey | modules/analysis.py:129-131 | the keys of a tag's table are exactly the normal forms of its names |
| Interactions.NameTableValue | modules/analysis.py:129-131 | every stored display name is one of the tag's names and normalises to its key |
| Interactions.NameTableLast | modules/analysis.py:129-131 | a later name with the same normal form overwrites the display name |
| Interactions.PresentMeaning | modules/analysis.py:144-150 | a name is present in a window exactly when some stored key mapping to it is a substring of the lower-cased window |
| Interactions.PairKeySplit | modules/analysis.py:162-176 | for names with no " -", `split(" - ")` of the pair string gives back exactly the two names |
| Interactions.PairKeyInjective | modules/analysis.py:162 | for such names, equal pair strings mean equal ordered pairs |
| Interactions.PairKeysCount | modules/analysis.py:158-163 | the double loop over distinct names counts a pair of distinct names once, in one orientation, exactly when both are listed |
| Interactions.PairKeysLength | modules/analysis.py:158-163 | `k` names give `k*(k-1)/2` pair strings |
| Interactions.WindowSize | modules/analysis.py:144-163 | a window adds `k*(k-1)/2` increments for `k` present names, none with fewer than two |
| Interactions.WindowPairs | modules/analysis.py:144-163 | a window adds one to the pair of two distinct names exactly when both are present, else nothing |
| Interactions.TallyPairs | modules/analysis.py:137-163 | `interactions["a - b"] + interactions["b - a"]` is the number of windows in which both `a` and `b` are present |
| Interactions.TallyNoSelf | modules/analysis.py:157-163 | no pair string of a name with itself is ever counted |
| Interactions.TallyKeyShape | modules/analysis.py:157-163 | every counted pair string joins two distinct names present together in some window, with a positive count |
| Interactions.FlattenPairs | modules/analysis.py:137-163 | per-window pair counts add up over the window loop |
| Interactions.Reduce | modules/analysis.py:165-177 | no contract of its own: the graph-building loop over the tags; see `ReduceNodes`, `ReduceEdges`, `ReduceBuilt` and `ReduceWeight` |
| Interactions.TopKeysPrefix | modules/analysis.py:171 | the top entities of a tag are its first ten keys, because the sort key is always zero and the sort is stable |
| Interactions.SurvivorsMember | modules/analysis.py:172 | a pair string is kept for a tag exactly when it was counted and contains one of the tag's top keys |
| Interactions.EdgeOpsMember | modules/analysis.py:169-177 | `add_edge` receives exactly the counted pair strings that contain a top key of some tag |
| Interactions.AddEdgesOutcome | modules/analysis.py:175-177 | the edge loop completes exactly when every pair string unpacks into two names, and otherwise fails at the first one that does not |
| Interactions.AddEdgesEdge | modules/analysis.py:175-177 | the edges after the loop are the earlier ones plus those of the unpacked pair strings |
| Interactions.AddEdgesNode | modules/analysis.py:175-177 | the nodes after the loop are the earlier ones plus the endpoints of the unpacked pair strings |
| Interactions.AddEdgesLastWrite | modules/analysis.py:175-177 | an edge weighs the count of the last pair string naming it (a later orientation overwrites, it does not add) |
| Interactions.AddEdgesUntouched | modules/analysis.py:175-177 | an edge that no later pair string names keeps its weight |
| Interactions.ReduceNodes | modules/analysis.py:166-177 | the graph has no isolated node: its nodes are exactly the endpoints of its edges |
| Interactions.ReduceEdges | modules/analysis.py:166-177 | the edges are those of the surviving pair strings, and the graph is empty exactly when nothing survives the filter |
| Interactions.ReduceBuilt | modules/analysis.py:176 | for names with no " -", every surviving pair string unpacks and no `ValueError` is raised |
| Interactions.ReduceWeight | modules/analysis.py:157-177 | each edge joins two distinct names and weighs one orientation's count: at least one, at most the number of windows holding both |
| Interactions.IndexSeparatorFreeFrom | modules/analysis.py:126-131 | the entity index inherits the absence of " -" from the catalog keys and their normal forms |
| Interactions.CreateGraphShape | modules/analysis.py:108-182 | for such catalogs the graph is built, has no isolated node, and each edge joins distinct names with weight between one and their number of shared windows |
| Stats.Normalize | modules/stats.py:27-33 | a blank or whitespace-only text normalises to "" |
| Stats.NormalizeWords | modules/stats.py:31-33 | provided every base form of a word is itself a non-empty word without whitespace, the words of the result are the base forms of the original words, one for one, so the word count is kept |
| Stats.NormalizeIdempotent | modules/stats.py:27-33 | provided base forms of words are non-empty words without whitespace and are their own base forms, normalising twice is normalising once |
| Stats.Extract | modules/stats.py:36-73 | every tag of the catalog is a selected label |
| Stats.ExtractIsCounter | modules/stats.py:49-71 | each tag's table is the Counter of the keys admitted under it in span order, and a tag is present exactly when some span was admitted under it |
| Stats.ExtractOrder | modules/stats.py:66-71 | a tag's entities are listed in the order in which they were first admitted under that tag |
| Stats.AddSpanCounter | modules/stats.py:53-71 | one loop iteration keeps that correspondence, counting the span's stripped, lower-cased, normalised form when it passes the filters |
| Stats.ExtractAdmissible | modules/stats.py:56-65 | every key is at least `min_length` long and not on the stoplist, and its tag is selected |
| Stats.ExtractCounts | modules/stats.py:67-71 | each count is the number of admitted spans with that tag and key; counts are positive and no tag has an empty table |
| Stats.ExtractTotal | modules/stats.py:49-71 | the counts of all tags add up to the number of admitted spans |
| Stats.KeptLemmas | modules/stats.py:84-91 | the kept lemmas hold each lower-cased lemma as often as there are kept tokens with it |
| Stats.WordFrequencies | modules/stats.py:75-92 | each word's frequency is the number of tokens with an allowed part of speech (NOUN, VERB, ADJ when none is given), not a stop word, alphabetic and at least `min_word_len` long, whose lower-cased lemma is that word |
| Dicts.CountAll | modules/stats.py:92 | the Counter has exactly the elements of the sequence as keys, each with its number of occurrences; its key order is stated by `CountAllOrder` |
| Dicts.CountAllOrder | modules/analysis.py:157-163 | a Counter lists its keys in the order of their first increment, so the tally lists its pair strings, and each tag's `add_edge` calls take them, in the order in which they were first counted |
| Dicts.CountAllSum | modules/stats.py:92 | a Counter's counts add up to the length of the counted sequence |
| Sorting.SortDesc | modules/analysis.py:75 | the descending sort returns a permutation of its input in descending key order |
| Sorting.SortDescStable | modules/analysis.py:171 | elements with equal keys keep their relative order |
| Sorting.SortDescConstant | modules/analysis.py:171 | with a constant key the sort returns its input unchanged |
| Sorting.TopSorted | modules/analysis.py:75 | the first `n` of the sort are `min(n, len)` input elements in descending order, forming a sub-multiset of the input |
| Sorting.TopBeats | modules/analysis.py:75 | no element left out of the first `n` has a larger key than one kept |
| Analysis.FilterMin | modules/analysis.py:38 | the filtered frequencies hold exactly the words with frequency at least `min_freq`, with their frequencies |
| Analysis.AnalyzeCloud | modules/analysis.py:30-38 | with the word cloud on, it shows exactly the lemmas kept at least `min_freq` times (and at least once), with their counts |
| Analysis.TableMeaning | modules/analysis.py:75 | an entity table has `min(10, n)` rows in descending count order, each a different key of the tag with its count, and no entity left out outranks one shown |
| Analysis.TableStable | modules/analysis.py:75 | entities with equal counts appear in the order first seen |
| Analysis.Tables | modules/analysis.py:71-77 | one table per catalog tag, in catalog order, each the top-10 table of that tag's counts |
| Analysis.Stage | modules/analysis.py:89-105 | without NER the error ends the function whatever the graph flag; otherwise the graph is attempted exactly when the flag is set, and drawn exactly when it has a node |
| Analysis.GraphSection | modules/analysis.py:89-105 | no contract of its own: the graph section of `analyze_book`, built with `context_size` 1 when unset; see `Stage` and `Analyze` |
| Analysis.Analyze | modules/analysis.py:29-105 | the word cloud appears exactly when enabled, the entity tables exactly when NER is on (one per catalog tag, each a selected tag, each that tag's top-10 table), and the graph section ends as `Stage` says |
| Analysis.AnalyzeTableRows | modules/analysis.py:69-77 | every row of a shown entity table names an entity of its tag with the number of admitted NER spans carrying that tag and entity, at least one |
| Strings.SplitLinesSingle | modules/parser.py:42 | a non-empty text without line boundaries is a single line |
| Strings.SplitLinesJoin | modules/parser.py:42 | for a text whose only line boundaries are newlines and which does not end in one, joining its lines with newlines gives the text back |
| Parser.Scan | modules/parser.py:43-47 | no contract of its own: the header loop over the first ten lines; see `ScanLast` |
| Parser.LastMatch | modules/parser.py:43-47 | the index found is that of the last line satisfying the test, or none when no line does |
| Parser.ScanLast | modules/parser.py:43-47 | the header loop leaves title and author at the stripped last matching line of each kind, independently, or at their defaults |
| Parser.MetaOr | modules/parser.py:56-57 | a present non-empty metadata field is returned, and a missing or empty one falls back to the default |
| Parser.FirstOr | modules/parser.py:64-65 | an EPUB field takes its first value, or the default when there is none |
| Parser.ExtractText | modules/parser.py:31-73 | an unsupported suffix gives `("Unsupported format", "", "")`; a TXT file scans its first ten lines for title and author, defaulting to "Неизвестно" and "Неизвестен"; a PDF takes its title and author from the metadata when present and non-empty, an EPUB from the first Dublin Core value, both falling back to the same defaults, and their text is the concatenation of pages or document items |

## Left out

- The Streamlit rendering is not modelled: headers, metrics, data frames, columns, messages and the download button (`modules/analysis.py:17-27` and the display calls). The report records only which parts would be shown.
- The word-cloud image, its PNG encoding, `visualize_character_interaction_graph` and the commented-out Plotly code are plotting.
- `basic_stats` is not modelled. It uses NLTK tokenisers, textstat and floating-point averages.
- Decoding is not modelled: chardet, PyMuPDF, ebooklib and BeautifulSoup. The decoded TXT text, the PDF page texts and metadata, and the EPUB items and Dublin Core values are inputs.
- The NLP models are not modelled: Natasha segmentation and NER, pymorphy2, spaCy and `str.lower`. They arrive as spans, tokens and the functions of a `Morph`.
- The two `print` calls of `create_character_interaction_graph` are output only.
- Set iteration order is the `arrange` parameter. Node insertion order of the `networkx` graph is not modelled: nodes are a set.
- The context size is a natural number. A negative `context_size` (the application's slider never produces one) is not modelled.
- Parser.ExtractText: the EPUB `get_metadata` result is modelled as the list of field values, so `title[0][0]` becomes the first value; the tuple structure around it is left out.
- Interactions.CreateGraphShape: it is stated only for catalogs whose keys and their normal forms contain no space followed by a hyphen. For other names the code may raise `ValueError` or split a name wrongly, and the model only records the failing pair string (`UnpackError`).
- Analysis.FilterMin: the order of the filtered words is that of the frequency table, and only membership and counts are stated about it.
