# Citation completion core of vim-pandoc (`citeproc.py`), modelled in Dafny

vim-pandoc completes citation keys as the user types them. `pythonx/vim_pandoc/citeproc.py` holds the
logic behind that completion:

- `find_bibfiles` finds the bibliography files, using up to five search strategies, each named by a
  one-letter tag in `g:pandoc#biblio#sources`:
  - `b`: files named like the buffer;
  - `c`: `*.<ext>` in the current directory;
  - `l`: `default.<ext>` in the pandoc data directory;
  - `t`: `*.<ext>` in the texmf home;
  - `g`: the configured `g:pandoc#biblio#bibs`.
- `bibliography_to_json` runs `pandoc-citeproc` on each file.
- `get_bibliography_suggestions` keeps the entries that match the query and turns each into a completion.
- `get_suggestions` concatenates the completions of all bibliographies and sorts them by their `"word"`.
- `csl_variable_parse` maps each CSL variable name to one of four handlers (plain, number, date, name).

The model has one module per piece:

| module | file | models |
|---|---|---|
| `CslVariables` | csl_variables.dfy | the 72-name variable table (`KindOf`, a `match`), the four handlers, `Parse` with its KeyError |
| `PathOps` | path_ops.dfy | `os.path.splitext` against a reference definition; the `*.<ext>` glob as a filter over a listing |
| `BibSources` | bib_sources.dfy | the five strategies as functions of an `Environment`; `Resolve`, the specification of `find_bibfiles`, and the method `FindBibfiles` with the source's loop |
| `Suggestions` | suggestions.dfy | the per-bibliography filter-map; the stable sort as an insertion-sort method; the method `GetSuggestions` |
| `AsWritten` | as_written.dfy | the three places where the code, as written, raises (see Findings) |
| `Seqs`, `StringOrder`, `Wrappers` | seqs.dfy, string_order.dfy, wrappers.dfy | list comprehensions and concatenation, Python's `str` ordering, Option/Result |

`Environment` holds everything the code reads from outside:

- the buffer name;
- the three `g:pandoc#biblio#…` variables;
- the entries of the current directory and of the texmf home;
- the output of `kpsewhich`;
- `os.path.exists`, `os.path.abspath` and `os.path.expandvars`, as function parameters.

The converter, `match`, `entry_to_completion` and the completion's `"word"` are also parameters of the
suggestion functions.

Where a reader might expect otherwise, the model follows the code:

- The resolved list is not deduplicated. The comment at citeproc.py:48-50 admits the duplicates
  (`ResolveKeepsDuplicates`, `CollectedKeepsDuplicates`).
- The `g` strategy returns the configured paths verbatim, without making them absolute.
- The `name` handler gives `[]` for falsy contents and `None` otherwise, not one string per person.
  The `date` handler gives `None`.
- There is no bibliography cache.
- Strategy tags are the characters `b c l t g`. An unknown tag is an error (`UnknownSource`) rather than being ignored.

## Model

| member | source | states |
|---|---|---|
| CslVariables.KindOf | pythonx/vim_pandoc/citeproc.py:146-222 | the variable table: 72 names, each with one of the four kinds; any other name has none |
| CslVariables.Get | pythonx/vim_pandoc/citeproc.py:224 | `entry.get(name, False)`: the stored value when the field is present, otherwise the falsy `False` |
| CslVariables.PlainHandler | pythonx/vim_pandoc/citeproc.py:126-129 | the plain handler hands its contents back unchanged |
| CslVariables.NumberHandler | pythonx/vim_pandoc/citeproc.py:131-134 | the number handler hands its contents back unchanged, as `plain` does |
| CslVariables.NameHandler | pythonx/vim_pandoc/citeproc.py:136-139 | the name handler gives `[]` or `None`, and `None` exactly for truthy contents |
| CslVariables.DateHandler | pythonx/vim_pandoc/citeproc.py:141-144 | the date handler always gives `None` |
| CslVariables.KindOfExamples | pythonx/vim_pandoc/citeproc.py:146-222 | title and doi are plain, volume and edition number, issued and accessed date, author and translator name; `id`, `Title` and the empty name have no kind |
| CslVariables.Parse | pythonx/vim_pandoc/citeproc.py:224 | the lookup fails with `UnknownVariable(name)` exactly when the name has no kind in the table |
| CslVariables.PlainAndNumberAreIdentity | pythonx/vim_pandoc/citeproc.py:126-134 | a plain or number variable comes back unchanged; an absent one comes back as `False` (`entry.get(name, False)`) |
| CslVariables.NumberIsPlain | pythonx/vim_pandoc/citeproc.py:131-134 | the number handler equals the plain handler on every value |
| CslVariables.NameVariable | pythonx/vim_pandoc/citeproc.py:136-139 | a name variable that is absent or falsy gives `[]`; a truthy one gives `None` |
| CslVariables.DateVariable | pythonx/vim_pandoc/citeproc.py:141-144 | a date variable gives `None`, present or not |
| CslVariables.UnknownVariableFails | pythonx/vim_pandoc/citeproc.py:224 | a name outside the table fails whatever the entry holds |
| CslVariables.ParseReadsOneField | pythonx/vim_pandoc/citeproc.py:224 | the result depends on the named field only |
| PathOps.RFind | pythonx/vim_pandoc/citeproc.py:41 | the index is -1 or holds the character, and no later index holds it (`str.rfind`, used by `splitext`) |
| PathOps.SplitExt | pythonx/vim_pandoc/citeproc.py:41 | root followed by extension gives back the path |
| PathOps.SplitExtSpec | pythonx/vim_pandoc/citeproc.py:41 | `splitext` cuts at the extension start if there is one (the last '.', after the last '/', not part of the file name's leading dots), and otherwise leaves the path whole |
| PathOps.ExtensionStartIsPicked | pythonx/vim_pandoc/citeproc.py:41 | every extension start is the position that the `rfind`-based code picks |
| PathOps.PickedIsExtensionStart | pythonx/vim_pandoc/citeproc.py:41 | the position the code picks is an extension start |
| PathOps.ExtensionShape | pythonx/vim_pandoc/citeproc.py:41 | the extension is empty, or a '.' followed by neither '.' nor '/' |
| PathOps.Glob | pythonx/vim_pandoc/citeproc.py:79-80 | a glob over a listing returns no more paths than the listing has entries |
| PathOps.GlobMember | pythonx/vim_pandoc/citeproc.py:52 | `glob(prefix + "*.<ext>")` returns exactly the prefixed entries of the listing that end in `.<ext>` and are not hidden |
| BibSources.LocalExtensions | pythonx/vim_pandoc/citeproc.py:12-15 | the user's extension list, empty when `g:pandoc#biblio#bib_extensions` is unset |
| BibSources.BSearch | pythonx/vim_pandoc/citeproc.py:35-45 | the same-name strategy finds nothing without a buffer name, and at most one path per user extension |
| BibSources.CSearch | pythonx/vim_pandoc/citeproc.py:47-54 | the current-directory strategy finds at most one path per directory entry and user extension |
| BibSources.PandocDataDir | pythonx/vim_pandoc/citeproc.py:56-64 | the pandoc data directory is an existing one of `$HOME/.pandoc/` and `%APPDATA%/pandoc/` (expanded), and there is none exactly when neither exists |
| BibSources.LSearch | pythonx/vim_pandoc/citeproc.py:56-68 | the pandoc strategy finds nothing without a data directory, and at most one path per fixed extension |
| BibSources.TSearch | pythonx/vim_pandoc/citeproc.py:70-84 | the texmf strategy finds nothing without an existing texmf home, and at most one path per entry and fixed extension |
| BibSources.GSearch | pythonx/vim_pandoc/citeproc.py:86-89 | the configured bibliography list, as it is |
| BibSources.Resolve | pythonx/vim_pandoc/citeproc.py:91-95 | no tags give no paths; a failure names a tag that occurs in the sources and has no strategy |
| BibSources.Strategy | pythonx/vim_pandoc/citeproc.py:27-31 | a tag has a strategy exactly when it is one of `b c l t g` |
| BibSources.FindBibfiles | pythonx/vim_pandoc/citeproc.py:91-95 | the loop returns `Resolve` of the configured tags: the strategies' outputs concatenated in tag order, or the first unknown tag |
| BibSources.ResolveConcat | pythonx/vim_pandoc/citeproc.py:91-93 | resolving `s + t` concatenates the results for `s` and for `t`; the first failure wins |
| BibSources.ResolveNoSources | pythonx/vim_pandoc/citeproc.py:91-95 | an empty tag list gives no paths |
| BibSources.ResolveFailsOnFirstUnknownTag | pythonx/vim_pandoc/citeproc.py:92-93 | resolution succeeds exactly when every tag is known; otherwise it fails with the first unknown tag |
| BibSources.ResolveKeepsDuplicates | pythonx/vim_pandoc/citeproc.py:47-50 | no deduplication: repeated tags repeat their paths |
| BibSources.BSearchNoBuffer | pythonx/vim_pandoc/citeproc.py:39 | with no buffer name (None or "") the same-name strategy finds nothing |
| BibSources.BSearchMember | pythonx/vim_pandoc/citeproc.py:41-45 | the same-name strategy finds `abspath(<stem>.<ext>)` exactly for the user extensions whose file exists |
| BibSources.BSearchOrder | pythonx/vim_pandoc/citeproc.py:42-44 | when all candidates exist, they come back in the order of the user's extension list |
| BibSources.CSearchMember | pythonx/vim_pandoc/citeproc.py:52-54 | the current-directory strategy finds exactly the absolute paths of the entries that match `*.<ext>` for a user extension |
| BibSources.TSearchMember | pythonx/vim_pandoc/citeproc.py:78-82 | with an existing texmf home, the texmf strategy finds exactly the absolute paths of its entries that match `*.<ext>` for a fixed extension |
| BibSources.PandocDataDirPreference | pythonx/vim_pandoc/citeproc.py:59-64 | `$HOME/.pandoc/` is preferred over `%APPDATA%/pandoc/`; with neither directory there are no paths |
| BibSources.LSearchMember | pythonx/vim_pandoc/citeproc.py:66-68 | the pandoc strategy finds `abspath(<dir>default.<ext>)` exactly for the existing files over the fixed nine extensions, so at most nine paths |
| BibSources.FixedListStrategiesIgnoreUserExtensions | pythonx/vim_pandoc/citeproc.py:17-25 | the pandoc and texmf strategies do not depend on the user's extension list |
| BibSources.TSearchNeedsTexmf | pythonx/vim_pandoc/citeproc.py:73-84 | without `kpsewhich`, or without its directory, the texmf strategy finds nothing |
| BibSources.GSearchIgnoresFileSystem | pythonx/vim_pandoc/citeproc.py:86-89 | the configured list comes back verbatim, whatever the file system says |
| Seqs.FlattenConcat | pythonx/vim_pandoc/citeproc.py:91-93 | extending from a concatenated list of lists equals concatenating the two results |
| Seqs.FlattenMember | pythonx/vim_pandoc/citeproc.py:91-93 | an element is in the concatenation exactly when it is in one of the lists |
| Seqs.FlattenLength | pythonx/vim_pandoc/citeproc.py:91-93 | concatenating lists of at most n elements gives at most n times their number |
| Seqs.FilterMapConcat | pythonx/vim_pandoc/citeproc.py:238 | a filter-map comprehension over a concatenation is the concatenation of the two comprehensions, so order is kept |
| Seqs.FilterMapMember | pythonx/vim_pandoc/citeproc.py:238 | an element of the comprehension is the image of a kept element, and every kept element contributes one |
| Seqs.FilterMapAll | pythonx/vim_pandoc/citeproc.py:44 | when every element is kept, the result is the image of each element at the same position |
| Seqs.FilterMapNone | pythonx/vim_pandoc/citeproc.py:238 | when no element is kept, the result is empty |
| Suggestions.BibliographyToJson | pythonx/vim_pandoc/citeproc.py:114-122 | a converter failure gives the empty bibliography |
| Suggestions.BibliographySuggestions | pythonx/vim_pandoc/citeproc.py:236-239 | a bibliography gives no more suggestions than it has entries |
| Suggestions.BibliographySuggestionsMember | pythonx/vim_pandoc/citeproc.py:238 | each suggestion is the completion of a matching entry, and every matching entry gives one |
| Suggestions.BibliographySuggestionsEmpty | pythonx/vim_pandoc/citeproc.py:116-122 | an unreadable bibliography, or one with no matching entry, contributes nothing |
| Suggestions.BibliographySuggestionsOrder | pythonx/vim_pandoc/citeproc.py:238 | when every entry matches, the suggestions have the entries' order |
| StringOrder.LexLe | pythonx/vim_pandoc/citeproc.py:254 | Python's `str` order: a non-empty string sorts before or equal to another only if that one is non-empty and starts no lower |
| StringOrder.PrefixIsLe | pythonx/vim_pandoc/citeproc.py:254 | a string sorts no later than any extension of it |
| StringOrder.LexLeReflexive | pythonx/vim_pandoc/citeproc.py:254 | Python's string order is reflexive |
| StringOrder.LexLeAntisymmetric | pythonx/vim_pandoc/citeproc.py:254 | Python's string order is antisymmetric |
| StringOrder.LexLeTransitive | pythonx/vim_pandoc/citeproc.py:254 | Python's string order is transitive |
| StringOrder.LexLeTotal | pythonx/vim_pandoc/citeproc.py:254 | Python's string order is total |
| Suggestions.IsStableSortOf | pythonx/vim_pandoc/citeproc.py:254 | what `sorted(..., key=...)` promises: ordered by key, a permutation, and each key's elements in input order |
| Suggestions.WithKeyOne | pythonx/vim_pandoc/citeproc.py:254 | a one-element list has that element in its key's group and nothing in any other group |
| Suggestions.WithKeyOfFirst | pythonx/vim_pandoc/citeproc.py:254 | the first element leads its own key's group |
| Suggestions.InsertKeepsOrder | pythonx/vim_pandoc/citeproc.py:254 | inserting after the elements with keys no greater keeps the list sorted and puts the new element last in its key's group |
| Suggestions.SortByKey | pythonx/vim_pandoc/citeproc.py:253-254 | the result is sorted by key, a permutation of the input, and stable (each key's elements keep their order) |
| Suggestions.StableSortUnique | pythonx/vim_pandoc/citeproc.py:254 | two sorted lists with the same elements per key, in the same order, are equal, so the sort's result is the one Python's `sorted` gives |
| Suggestions.FirstKeyIsLeast | pythonx/vim_pandoc/citeproc.py:254 | in sorted lists with the same key groups, neither list can start with a smaller key than the other |
| Suggestions.SortExample | pythonx/vim_pandoc/citeproc.py:250-254 | words "b", "a" from one bibliography and "c" from the next come out as "a", "b", "c" |
| Suggestions.BibsToSearch | pythonx/vim_pandoc/citeproc.py:245-247 | the buffer's non-empty list is searched as it is; otherwise resolution, whose failure names an unknown tag of the sources |
| Suggestions.Collected | pythonx/vim_pandoc/citeproc.py:250-251 | no bibliography gives nothing, and one bibliography gives its own suggestions |
| Suggestions.SuggestionLists | pythonx/vim_pandoc/citeproc.py:250-251 | one suggestion list per bibliography |
| Suggestions.CollectedAppend | pythonx/vim_pandoc/citeproc.py:250-251 | reading one more bibliography appends its suggestions to the collected ones |
| Suggestions.GetSuggestions | pythonx/vim_pandoc/citeproc.py:244-256 | fails exactly when resolving fails, with that error; otherwise returns the stable sort by word of all bibliographies' suggestions concatenated |
| Suggestions.BufferBibsBypassResolution | pythonx/vim_pandoc/citeproc.py:245-247 | a non-empty buffer bibliography list is used as it is, whatever the environment |
| Suggestions.NoBibliographiesNoSuggestions | pythonx/vim_pandoc/citeproc.py:250-256 | no bibliography gives no suggestion |
| Suggestions.CollectedKeepsDuplicates | pythonx/vim_pandoc/citeproc.py:250-251 | a bibliography listed twice gives its suggestions twice |
| AsWritten.FindBibfilesAsWritten | pythonx/vim_pandoc/citeproc.py:27-35 | as written, `find_bibfiles` always raises |
| AsWritten.CSearchAsWritten | pythonx/vim_pandoc/citeproc.py:52-53 | as written, `c_search` raises exactly when the user extension list is non-empty |
| AsWritten.TSearchAsWritten | pythonx/vim_pandoc/citeproc.py:78-82 | as written, `t_search` raises exactly when the texmf directory exists |
| AsWritten.GetSuggestionsAsWritten | pythonx/vim_pandoc/citeproc.py:244-256 | as written, `get_suggestions` always raises |
| AsWritten.EagerDispatchDiscrepancy | pythonx/vim_pandoc/citeproc.py:27-31 | as written nothing is ever resolved; with lazy dispatch an empty tag list gives [] and `g` gives the configured list |
| AsWritten.AbsPathOfListDiscrepancy | pythonx/vim_pandoc/citeproc.py:52-53 | a matching entry in the current directory makes the as-written strategy raise, and the corrected strategy finds it |
| AsWritten.UnboundMatchesDiscrepancy | pythonx/vim_pandoc/citeproc.py:250-253 | with buffer bibliographies, the as-written function raises, while the corrected one reads exactly those bibliographies |

## Left out

- The editor surface (`vim.vars`, `vim.current.buffer`, `vim.eval`) becomes fields of `Environment` and
  parameters of `GetSuggestions`. The KeyError raised when `g:pandoc#biblio#sources` or
  `g:pandoc#biblio#bibs` is unset is not modelled: the model always has a value for both.
- The subprocesses `pandoc-citeproc` and `kpsewhich` are not modelled. The converter is a parameter
  that returns the parsed entries, or `None` on any failure. `kpsewhich` becomes the field
  `texmfHome`, holding its stripped output, or `None` when it is not executable. Under Python 3 that
  output is `bytes`; that is not modelled.
- JSON decoding is not modelled; the converter's output arrives already parsed. `Json` numbers are
  integers only (no floating point).
- The file system is not modelled. `os.path.exists`, `os.path.abspath` and `os.path.expandvars` are
  functions supplied by the caller, and the directories that are globbed are given as listings.
  Only the POSIX form of `splitext` is modelled (separator '/').
- `glob` is modelled as a filter over a listing, taken in order. An extension is one literal string;
  glob metacharacters inside an extension are not interpreted. A path found in the texmf home is
  the directory, then "/", then the entry; normalising that path is `abspath`'s job.
- The bodies of `match` and `entry_to_completion` are empty stubs in the source, so both are
  parameters. As written, they return `None`: no entry matches and no completion would be built. The
  tokenised matching described only in their comments is not modelled.
- `sorted(..., key=operator.itemgetter("word"))` raises KeyError for a completion without `"word"`.
  This is not modelled: the key is a total function parameter.
- A tag in `sources` is one character. A longer tag in a list-valued setting is unknown to
  `search_methods`, as it is in the source.
- KindOf: the table is not checked to have exactly 72 entries. Being a `match` on the name, it gives
  each name at most one kind, as the source's dict display does. How many names have a kind is
  not proved.
- BibliographyToJson: states only the failure case; on success the result is the converter's
  output itself.

## Findings

| source | as written | input that shows it | evidently intended | confidence | as-written member | corrected member |
|---|---|---|---|---|---|---|
| pythonx/vim_pandoc/citeproc.py:27-35 | the dispatch dict calls `b_search()` (and the others) before the nested `def`s bind those local names, so UnboundLocalError is raised | any call of `find_bibfiles`, e.g. with `sources = "g"` | map each tag to its function and call only the selected strategies, in tag order | high (not executed) | AsWritten.FindBibfilesAsWritten, AsWritten.EagerDispatchDiscrepancy | BibSources.FindBibfiles |
| pythonx/vim_pandoc/citeproc.py:52-53, 80-81 | `os.path.abspath` is applied to each list returned by `glob`, which raises (TypeError on Python 3, AttributeError on Python 2) | `g:pandoc#biblio#bib_extensions = ["bib"]`, current directory holding `refs.bib` | make each globbed path absolute and flatten the lists | high (not executed) | AsWritten.CSearchAsWritten, AsWritten.TSearchAsWritten, AsWritten.AbsPathOfListDiscrepancy | BibSources.CSearchMember, BibSources.TSearchMember |
| pythonx/vim_pandoc/citeproc.py:250-254 | `matches` is assigned at line 254, so it is local, and it is read at lines 251 and 253 before any assignment, raising UnboundLocalError | `b:pandoc_biblio_bibs = ["refs.bib"]` | start `matches` as the empty list | high (not executed) | AsWritten.GetSuggestionsAsWritten, AsWritten.UnboundMatchesDiscrepancy | Suggestions.GetSuggestions |
