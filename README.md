# Record reconciliation of the literature-search script

`main.py` collects literature records from four providers: PubMed, arXiv, CrossRef and Europe PMC. Each provider adapter turns what its provider returned into a dictionary of seven string columns: Source, Title, Authors, Year, Abstract, DOI and URL. The script then concatenates the four lists in call order. It counts records per source, drops every record whose key `(Title.lower(), Year)` has already been seen, and counts again.

This project models that reconciliation core in Dafny:

- `Text`: the string operations the adapters use. These are `str.strip()`, `str.lower()`, `str.split(c)` with a one-character separator, `sep.join(...)` and `str(int)`. Each has lemmas about it: idempotence, uniqueness, split/join inverses and a decimal round trip.
- `Records`: the seven-column record, the four `Source` strings, the `"; "` author separator and the deduplication key.
- `Adapters`: one function per provider. Each builds a record from one already-parsed provider item, whose fields are `Option`s wherever the provider may omit a key or an XML element. The expressions can raise `AttributeError`, `TypeError` or `IndexError`, and the script stops on any of them. These exceptions are modelled as `Err` results.
  - The `for` loops that append records are methods. Each is proved equal to a function over the item list.
- `Deduplication`: `Dedup` is the specification of the first-occurrence-wins filter, written as a function. `Deduplicate` is the script's loop with its `seen` set, proved to compute `Dedup`.
  - The lemmas cover subsequence, coverage, first occurrence, key uniqueness, idempotence and length.
- `Summary`: the `Counter`s over `Source` as multisets, aggregation in call order, and the run as a whole (`Pipeline`, and the method `RunPipeline`).

Inputs are the parsed items of all pages together. The HTTP status of the CrossRef request is a parameter.

## Model

| member | source | states |
|---|---|---|
| Deduplication.Dedup | main.py:166-172 | the kept list is no longer than the input, has exactly the input's set of keys, and has no two records with the same key |
| Deduplication.Deduplicate | main.py:166-172 | the loop with its `seen` set returns `Dedup(results)`; the invariant is that `seen` is the key set of the records kept so far |
| Deduplication.DedupLast | main.py:168-172 | one iteration: the next record is appended iff its key is not among the keys of the records kept so far |
| Deduplication.FirstPositionsExact | main.py:168-172 | the first-occurrence positions are exactly the positions whose key does not occur earlier |
| Deduplication.DedupKeepsFirstOccurrences | main.py:168-172 | the output is the input's subsequence at strictly increasing positions; these positions are exactly the first occurrences of each key |
| Deduplication.DedupKeepsEarliest | main.py:168-172 | every kept record is the earliest input record with its key, and every earliest record is kept |
| Deduplication.DedupOfDistinct | main.py:166-172 | a list without repeated keys passes through unchanged |
| Deduplication.DedupIdempotent | main.py:166-172 | deduplicating the output again returns it unchanged |
| Deduplication.DedupLength | main.py:166-172 | the number of kept records equals the number of distinct keys of the input |
| Deduplication.DedupSnoc | main.py:170-172 | a further record is appended iff its key is not among the keys of the earlier records |
| Deduplication.DedupPair | main.py:170-172 | of two records, the second survives iff its key differs from the first's |
| Deduplication.CaseVariantsCollide | main.py:169-171 | titles that differ only in case collide, so only the first record is kept |
| Deduplication.YearsCompareExactly | main.py:169-171 | the years `"2022"` and `"2022 "` do not collide, so both records are kept |
| Records.KeyOf | main.py:169 | the key keeps the year unchanged and has a title of the title's length |
| Records.KeyTitleIsLowerCase | main.py:169 | the key's title equals the record's title up to letter case and contains no upper-case letter |
| Records.SameKeyIff | main.py:169 | two records share a key iff their titles are equal up to ASCII letter case and their years are identical strings |
| Records.AuthorsRecoverable | main.py:45 | when no name contains `;`, splitting the `Authors` field at `;` gives one piece per author in provider order: the first is the name itself and each later one has the separator's space in front |
| Summary.Sources | main.py:159 | `[r["Source"] for r in rs]`: one entry per record, the record's source at its position |
| Summary.SourceCounts | main.py:159 | the counts sum to the number of records, which is the `Total` |
| Summary.CountedIff | main.py:159 | a source has a count iff some record carries it |
| Summary.SourcesConcat | main.py:159 | the sources of a concatenation are the concatenation of the sources |
| Summary.CountsConcat | main.py:159 | counting a concatenation adds the counts of its parts |
| Summary.CountsOfOneSource | main.py:159 | a list from a single source counts that source once per record and counts nothing else |
| Summary.SourcesSnoc | main.py:159 | one more record adds one count of its source |
| Summary.DedupSourcesBounded | main.py:175 | the sources of the kept records are a sub-multiset of the sources of the input |
| Summary.DedupCountsBounded | main.py:175 | the counts after deduplication are a sub-multiset of the counts before, so each source's count is at most its count before |
| Summary.Aggregate | main.py:153-156 | the aggregated list is the PubMed, arXiv, CrossRef and Europe PMC lists in that order, each at its own slice |
| Summary.Summarize | main.py:159-179 | the exported list has no key twice and the raw list's keys; the totals are the lengths of the lists they count |
| Summary.SummarizeCounts | main.py:159-179 | the exported list is no longer than the raw list; after is at most before, for the total and for each source |
| Summary.Pipeline | main.py:66-75 | a run completes iff every arXiv entry has its elements and, when the status is 200, every CrossRef item builds; an arXiv crash is the crash of the run |
| Summary.RunPipeline | main.py:153-175 | the sequence of the adapter loops, the deduplication loop and both counts returns `Pipeline(...)` |
| Summary.AggregateCounts | main.py:153-159 | in the concatenation in call order, each source counts exactly the records of its own adapter |
| Summary.PipelineCounts | main.py:153-159 | in a completed run, the counts before deduplication are: one PubMed per MEDLINE record, one arXiv per entry, one CrossRef per item when the status is 200 (otherwise none), and one Europe PMC per hit |
| Summary.CrossRefCount | main.py:91-115 | a successful CrossRef response gives one CrossRef record per item, or none when the status is not 200 |
| Summary.DistinctSourceNames | main.py:43 | the four `Source` strings are pairwise different |
| Summary.ScenarioUnique | main.py:166-172 | in the scenario, the CrossRef record repeating the first PubMed key is dropped and the other five are kept in order |
| Summary.ScenarioCounts | main.py:159-175 | three PubMed records, two arXiv records and one CrossRef duplicate give 6 records before deduplication and 5 after; the CrossRef count goes from 1 to 0 |
| Adapters.FromMedline | main.py:42-50 | the PubMed record: Source `"PubMed"`, Title `TI` stripped, Authors the `AU` names joined with `"; "`, Abstract `AB`, DOI `LID`, URL the PubMed prefix, `PMID` and `/`, each missing key read as `""` (`[]` for `AU`) <br> its year is the part of `DP` before the first space, which is a prefix of `DP` with no space, and empty when `DP` is missing or empty |
| Adapters.PubMedRecords | main.py:41-50 | one record per MEDLINE record, each built by `FromMedline`, in order |
| Adapters.SearchPubMed | main.py:41-50 | the loop returns `PubMedRecords(records)` |
| Adapters.FindText | main.py:69-74 | `find(tag).text` exists iff the element does, gives the element's text, which may be `None`, and otherwise raises `AttributeError` on that tag |
| Adapters.FindString | main.py:69 | `find(tag).text` used as a string exists iff the element and its text both exist |
| Adapters.AtomAuthorNames | main.py:70 | one name per `atom:author`, in document order <br> a missing name element raises `AttributeError`; otherwise a name without text makes the join raise `TypeError` |
| Adapters.FromAtomEntry | main.py:67-75 | the arXiv record builds iff the title, every author name, the published date, the summary and the id can be read <br> a missing title raises first <br> the record has Source `"arXiv"`, the title text stripped, the names joined with `"; "`, the summary text as Abstract, an empty DOI and the id text as URL <br> its year is the part of `published` before the first `-`, a prefix with no `-` |
| Adapters.SearchArxiv | main.py:66-75 | the entry loop returns `MapResults(FromAtomEntry, entries)`: all records in order, or the first entry's crash |
| Adapters.MapResults | main.py:66-75 | building a list succeeds iff every item builds, and then gives the records pointwise; otherwise it gives the crash of the first failing item |
| Adapters.MapResultsFirstCrash | main.py:66-75 | when item `i` is the first failing item, its crash is the result |
| Adapters.MapResultsAllBuilt | main.py:66-75 | when every item builds, the result is their records in order |
| Adapters.NameParts | main.py:100-104 | the given name, when present, comes first and the family name, when present, last; nothing else is added |
| Adapters.CrossRefName | main.py:99-105 | the name is `given + " " + family` when both are present, the present part when only one is, and `""` when neither is |
| Adapters.CrossRefNames | main.py:99-105 | one name per author entry, in provider order |
| Adapters.CrossRefTitle | main.py:97 | a missing title gives `""`, an empty title list raises `IndexError`, and otherwise the result is the first title |
| Adapters.DateParts | main.py:111 | the default `[[None]]` when `issued` or `date-parts` is missing, the provider's date lists otherwise |
| Adapters.CrossRefYear | main.py:111 | a missing `issued` or `date-parts`, or a `null` year, gives `"None"`; an empty date list raises `IndexError`; otherwise the result is the year's canonical decimal numeral (a `-` only for negative years, no leading zero) that reads back as the year |
| Adapters.FromCrossRefItem | main.py:97-115 | the CrossRef record builds iff its title and year do <br> it has Source `"CrossRef"`, the first title stripped, the names joined with `"; "`, the derived year, an empty Abstract, and `DOI` and `URL` or `""` |
| Adapters.CrossRefItems | main.py:96 | the items of `message`, and none when `message` or `items` is missing |
| Adapters.CrossRefRecords | main.py:90-96 | a status other than 200 contributes no records; otherwise one record is built per item |
| Adapters.SearchCrossRef | main.py:96-115 | the item loop returns `CrossRefRecords(resp)` |
| Adapters.EpmcNames | main.py:143 | one `fullName` per author, in provider order, with `""` where it is missing |
| Adapters.FromEpmcHit | main.py:140-148 | the Europe PMC record: Source `"Europe PMC"`, Title `title` stripped, the names joined with `"; "`, Year `pubYear`, Abstract `abstractText`, DOI `doi`, URL the Europe PMC prefix with `source` and `id`, each missing key read as `""` |
| Adapters.EuropePmcRecords | main.py:139-148 | one record per hit, each built by `FromEpmcHit`, in order |
| Adapters.SearchEuropePmc | main.py:139-148 | the hit loop returns `EuropePmcRecords(hits)` |
| Text.LeadingSpace | main.py:44 | the length of the longest whitespace prefix: every character before it is whitespace and the next one is not |
| Text.TrailingSpace | main.py:44 | the length of the longest whitespace suffix |
| Text.Strip | main.py:44 | the result has no leading or trailing whitespace and is the middle of the input once its leading and trailing whitespace is removed |
| Text.StripUnique | main.py:44 | stripping whitespace around a stripped string gives back that string |
| Text.StripIdempotent | main.py:44 | stripping twice is the same as stripping once |
| Text.Lower | main.py:169 | the result has the same length and lower-cases each character |
| Text.LowerEqualIff | main.py:169 | two strings have the same lower-case form iff they are equal up to letter case |
| Text.SameLetterIffSameLower | main.py:169 | two characters are the same letter up to case iff their lower-case forms are equal |
| Text.LowerIdempotent | main.py:169 | lower-casing twice is the same as lower-casing once |
| Text.LowerHasNoUpper | main.py:169 | the result contains no upper-case letter |
| Text.Split | main.py:46 | `split(c)` gives at least one piece, no piece contains `c`, and the first piece is the part in front of the first `c` |
| Text.Join | main.py:45 | joining no parts gives `""`; the join starts with the first part, followed by the separator when there is a second part |
| Text.FirstFieldUnique | main.py:46 | only one string is the part in front of the first `c` |
| Text.SplitWithoutSeparator | main.py:71 | a string without the separator splits into itself |
| Text.SplitJoin | main.py:46 | rejoining the pieces with the separator gives back the input |
| Text.SplitAtSeparator | main.py:71 | a separator after a separator-free prefix ends the first piece |
| Text.SplitAfterPrefix | main.py:71 | a separator-free prefix becomes part of the first piece only |
| Text.Behind | main.py:45 | each part with the given text in front, one for one |
| Text.SplitBehind | main.py:45 | a separator-free text in front of a split string goes in front of every piece after it |
| Text.JoinSplit | main.py:45 | splitting a join at the separator's first character gives the first part, then each later part with the rest of the separator in front |
| Text.JoinSplitInverse | main.py:45 | for parts without `c`, splitting their join at `c` gives them back |
| Text.NatDecimal | main.py:111 | the decimal digits of a natural number: at least one digit, and a leading zero only for zero itself |
| Text.NatDecimalRoundTrip | main.py:111 | reading the digits back gives the number |
| Text.NatDecimalOfDigits | main.py:111 | a canonical digit string is the numeral of its own value, so the numeral of a number is unique |
| Text.IntDecimal | main.py:111 | `str(n)`: a canonical decimal numeral, with `-` exactly when `n` is negative, that parses back to `n` |
| Text.IntDecimalOfCanonical | main.py:111 | every canonical numeral is `str` of the integer it reads as, so `IntDecimal` gives the only canonical numeral of `n` |

## Left out

- HTTP requests, `Entrez.esearch`/`efetch`, and the status check of each Europe PMC page are not modelled. They are I/O.
- The arXiv and Europe PMC pagination loops are left out, because their termination depends on remote responses. The adapters take the items of all pages together.
- The CrossRef query parameters, including `rows`, are left out. They only shape the request.
- The MEDLINE reader, the XML parser with its namespaced lookups, and `r.json()` are replaced by datatypes of optional fields.
- JSON values of unexpected types are not modelled. Examples: a non-string `title` element, a non-list `author`, a non-integer year in `date-parts`, a non-string `pubYear`. Every field has the type the provider documents.
- Text.Lower: lower-cases ASCII letters only. Python's `str.lower()` also maps non-ASCII letters. Keys therefore compare titles up to ASCII case.
- Text.Strip: removes exactly the characters for which Python's `str.isspace()` holds, taken as the Unicode whitespace list. It does not follow Unicode database updates.
- Adapters.FromAtomEntry: an `atom:summary` or `atom:id` element without text holds `None` in the script and is written as an empty CSV cell. The model uses `""` for it.
- Adapters.FromEpmcHit: `str(hit.get("pubYear", ""))` is the identity on strings, and the model assumes a string `pubYear`.
- Adapters.Crash: the message text of each exception is not modelled. Only its kind is, together with the lookup that raised it: the element tag or the JSON key. For the `TypeError` of the arXiv author join, the subject is the `atom:name` tag whose text was missing.
- The module-level `results` list is not modelled as shared state. Aggregation is the concatenation of the four adapters' lists in call order.
- The console output, the insertion order of the `Counter` keys, the CSV export, the `oos/` directory, the `.gitignore` append and the charts are left out. They are I/O or presentation.
