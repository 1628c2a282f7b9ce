# Archival tree and record helpers of Projeto-SPLN

This project models the deterministic core of Projeto-SPLN, a set of Python
scripts that harvest the OAI-PMH records of a Portuguese municipal archive and
turn them into browsable outputs. The model covers:

- **The archival-tree builder.**
  - Each YAML record carries slash-separated identifiers such as
    `PT/MVNF/AMAS/CSC/006-003`. A record is stored under its first identifier
    starting with `PT/`.
  - Every prefix of every stored identifier becomes exactly one node. A node
    takes its title and type from the record at that exact prefix. Without
    one, the title is `(id)` and the type is inferred from the depth (F, SC,
    SSC, SR, then UI).
  - Every node is linked under its parent.
  - Three renderers walk the resulting forest with siblings in id order: the
    indented text tree, the directory/README structure and the nested HTML
    list.
  - The builder exists twice: as functions in `TP1/4_arvore_dir.py` and as a
    script in `TP1/3_arvore_arq.py`. Both are modelled, and the script is
    proved to build the same forest and print the same roots.
- **Record statistics** (`TP1/get_data.py`): date summaries, field counts,
  constant fields and candidate keys, grouping by type, and the html/wiki
  pretty printer.
- **Metadata extraction** (`TP2/process_data.py`): text cleaning, dotted
  metadata keys, and the scalar-then-list merge of repeated keys.
- **Search-record selection** (`TP1/6_procura.py`): year-range parsing, and
  the field picks and joins made after the XML has been parsed.
- **The thesaurus page** (`TP1/9_thesaurus.py`): de-duplication of (title,
  terms) entries, grouping by category, and the index and sections it writes.

## How it is modelled

- **Python dictionaries** are `PyDict.Dict`: an insertion-ordered key
  sequence plus a map. Iteration order matters for the linking loop, the
  partition loop, `categorias` and `metadata`.
- **Nodes** are values of `ArchivalTree.ArchivalNode`. A node's `children`
  holds the full ids of the child nodes, which are keys of the one node
  dictionary, instead of object references.
- **The directory listing** is a given sequence of (file name, record) pairs.
- **Loops that build state** are methods with loop invariants. Each method is
  specified against a reference function or by its effect on the state, and
  the properties are proved about those functions.
  - Examples: `LoadRecords`, `BuildNodes`, `LinkChildren`, `Partition`,
    `AnalyzeDataStructure`, `AggregateByType`, `ExtractMetadata`,
    `Categorise` and the `Write*` methods.
- **The recursive renderers** are functions. Each is proved equal to a flat
  form: the pre-order walk `Visit` of the forest, mapped line by line.

Modules, one file each:

| File | Module |
|---|---|
| `text.dfy` | string helpers |
| `pydict.dfy` | ordered dictionaries |
| `archival_tree.dfy` | loading and linking |
| `archival_render.dfy` | the three renderers and order independence |
| `archival_script.dfy` | the script version |
| `get_data.dfy` | record statistics |
| `process_data.dfy` | metadata extraction |
| `procura.dfy` | search-record selection |
| `thesaurus.dfy` | the thesaurus page |

## Model

| member | source | states |
|---|---|---|
| ArchivalTree.CanonicalId | TP1/4_arvore_dir.py:37-39 | The result is absent exactly when no identifier starts with `PT/`. Otherwise it is the first identifier that does. |
| ArchivalTree.LoadRecords | TP1/4_arvore_dir.py:33-40 | After the first loop, `records_by_id[k]` is the record of the last listed `.yaml` file whose canonical id is `k`. Files without a canonical id are absent. Keys appear in order of first appearance. |
| ArchivalTree.LastRecordWithIdPresent | TP1/4_arvore_dir.py:33-40 | An id is stored if and only if some listed YAML file has it as its canonical id. |
| ArchivalTree.ChainNode | TP1/4_arvore_dir.py:43-74 | For prefix length i, the node has id `parts[i-1]`, full id the prefix, and no children. Its parent is the prefix of length i-1, or None at depth 1. Its title is the record's `titulo` or `(id)`. Its type is the record's `tipo` or F/SC/SSC/SR/UI by depth. |
| ArchivalTree.CreateNode | TP1/4_arvore_dir.py:48-74 | The node created for a prefix is exactly the one `ChainNode` describes. |
| ArchivalTree.EnsureNodeChain | TP1/4_arvore_dir.py:43-47 | Afterwards every prefix of the id is a key. No other key is added. Existing nodes are unchanged, so the chain is idempotent. |
| ArchivalTree.BuildNodes | TP1/4_arvore_dir.py:76-77 | The loop over `records_by_id` yields exactly the node map of all prefixes of all stored ids, independent of processing order. |
| ArchivalTree.AllPrefixIdsMembers | TP1/4_arvore_dir.py:43-47 | A key is present if and only if it is a prefix of some stored id. |
| ArchivalTree.NodeCount | TP1/4_arvore_dir.py:43-77 | The node count equals the number of distinct prefixes. |
| ArchivalTree.PrefixClosed | TP1/4_arvore_dir.py:43-47 | Every prefix of a node's key is itself a node. |
| ArchivalTree.ParentLink | TP1/4_arvore_dir.py:66-73 | A node has no parent exactly at depth 1. Otherwise its parent is a node whose id is one segment shorter, and the full id is the parent id, `/` and the node id. |
| ArchivalTree.ChildrenInMembers | TP1/4_arvore_dir.py:80-82 | The children collected for a parent are exactly the nodes whose `parent_id` is that parent, without repetition. |
| ArchivalTree.LinkNode | TP1/4_arvore_dir.py:80-82 | One linking step appends the node to its parent's children if and only if the parent is present. It keeps the invariant that every earlier node was linked once. |
| ArchivalTree.LinkChildren | TP1/4_arvore_dir.py:80-82 | After linking, every node equals its unlinked self with the children of that parent appended in dictionary order. No other field and no key changes. |
| ArchivalTree.LoadYamlRecords | TP1/4_arvore_dir.py:27-84 | The keys are the prefixes of the stored ids. Each node, apart from its children, is the synthesised node. The result is a well-formed forest. |
| ArchivalTree.LinkedNodeShape | TP1/4_arvore_dir.py:66-82 | In the linked map, a parent is present for every node of depth > 1 and is one segment shorter. The children are exactly the nodes naming it as parent, each listed once. |
| ArchivalTree.SynthesizedForest | TP1/4_arvore_dir.py:43-82 | Synthesis followed by linking yields a well-formed forest. |
| ArchivalTree.RootIdsMembers | TP1/4_arvore_dir.py:91-92 | The roots are exactly the nodes with no parent or an absent parent, each listed once. |
| ArchivalTree.ForestRoots | TP1/4_arvore_dir.py:91-92 | In a loaded forest, the roots are exactly the depth-1 nodes. |
| ArchivalTree.LastRecordOfUnique | TP1/4_arvore_dir.py:40 | When no two files share a canonical id, each file's record is the one stored. |
| ArchivalTree.LoadOrderIndependent | TP1/4_arvore_dir.py:33-77 | Two listings that are permutations of each other, with unique canonical ids, store the same ids and the same records. |
| ArchivalRender.InsertById | TP1/4_arvore_dir.py:23 | Insertion adds exactly the one element to the multiset. |
| ArchivalRender.SortById | TP1/4_arvore_dir.py:23 | Sorting by id is a permutation of its input. |
| ArchivalRender.SortByIdSorted | TP1/4_arvore_dir.py:23 | The result of sorting by id is in ascending id order. |
| ArchivalRender.SortByIdDistinct | TP1/4_arvore_dir.py:23 | Sorting keeps a list free of repetitions. |
| ArchivalRender.SortedUnique | TP1/4_arvore_dir.py:23 | Two id-sorted, repetition-free lists with the same members and pairwise distinct ids are equal, so the sibling order is determined. |
| ArchivalRender.SortedChildren | TP1/4_arvore_dir.py:23 | The sorted children are the node's children, same count and members. Each child's key is longer than the parent's. |
| ArchivalRender.NodeShape | TP1/4_arvore_dir.py:44-66 | A node id holds no `/`. A root's full id is its id. Otherwise the full id is the parent id, `/` and the id. |
| ArchivalRender.VisitCovers | TP1/4_arvore_dir.py:20-25 | The walk from a node reaches exactly the nodes whose full id lies below it. |
| ArchivalRender.VisitDistinct | TP1/4_arvore_dir.py:20-25 | The walk from a node reaches each node once. |
| ArchivalRender.VisitRootsDistinct | TP1/4_arvore_dir.py:123-124 | Walking distinct roots reaches each node once. |
| ArchivalRender.ForestVisitedOnce | TP1/4_arvore_dir.py:117-125 | Walking the sorted roots reaches every node exactly once. |
| ArchivalRender.SortedRoots | TP1/4_arvore_dir.py:119-123 | The sorted roots are exactly the nodes that have no parent or whose parent is absent. |
| ArchivalRender.ChildLevel | TP1/4_arvore_dir.py:24 | A child is one level deeper than its parent. |
| ArchivalRender.ReprFollowsVisit | TP1/4_arvore_dir.py:20-25 | `__repr__` at a node's depth is the node's walk with one line per node. Each line is indented by its depth and shows `id`, ` [tipo]` only for a non-empty type, ` - ` and the title. |
| ArchivalRender.TextTreeFollowsVisit | TP1/4_arvore_dir.py:117-125 | The text tree is the walk of the roots in id order, one indented line per node. |
| ArchivalRender.DirNameSlash | TP1/4_arvore_dir.py:100 | A directory name holds `/` only when the type does, because titles have `/` replaced by `_`. |
| ArchivalRender.DirStructureFollowsVisit | TP1/4_arvore_dir.py:98-115 | A node's directories, in creation order, are one per node of its walk. Each is nested under its ancestors' names and carries that node's README. |
| ArchivalRender.DirectoryStructureFollowsVisit | TP1/4_arvore_dir.py:87-96 | The directory structure of the forest is one entry per node of the root walk, in that order. |
| ArchivalRender.SourceFile | TP1/4_arvore_dir.py:131-139 | A node has a source file if and only if some listed YAML file lists its full id among its identifiers; the file found is the first such file of the listing. |
| ArchivalRender.Caption | TP1/4_arvore_dir.py:141 | The caption is `id-tipo-title` with every `/` replaced by `_`, so it holds no `/`. |
| ArchivalRender.ItemLine | TP1/4_arvore_dir.py:141-145 | Each node's HTML item line opens with `<li>`; it opens with `<li><a href="../` exactly when a source file was found, and then ends with `/`, the file name, `">`, the caption and `</a>`; otherwise it is `<li>` and the caption alone. |
| ArchivalRender.PlainItem | TP1/4_arvore_dir.py:141-145 | An unlinked item line never starts like a linked one, because the caption holds no `/`. |
| ArchivalRender.HtmlLines | TP1/4_arvore_dir.py:145-152 | A node's HTML has at least two lines and ends with `</li>`. |
| ArchivalRender.HtmlLinesAll | TP1/4_arvore_dir.py:146-150 | A list of children renders to no lines exactly when it is empty, so `<ul>` appears only for nodes with children. |
| ArchivalRender.BuildHtmlFlattens | TP1/4_arvore_dir.py:130-152 | The nested newline joins of `build_html` equal one join of the flat line list. |
| ArchivalRender.HtmlTreeFollowsVisit | TP1/4_arvore_dir.py:127-167 | The page is the header, the root items and the footer joined by newlines. Its `<li>` lines are exactly one item line per node of the root walk, in walk order. |
| ArchivalRender.RenderingsIgnoreOrder | TP1/4_arvore_dir.py:87-167 | Two forests with the same nodes, whatever their dictionary order, give the same text tree, directories and HTML. |
| ArchivalRender.OutputsIgnoreListingOrder | TP1/4_arvore_dir.py:27-167 | Loading two permutations of a listing with unique canonical ids gives identical renderings. |
| ArchivalScript.RecordFiles | TP1/3_arvore_arq.py:21-23 | Only files named `record_*.yaml` are read. |
| ArchivalScript.ReadRecords | TP1/3_arvore_arq.py:20-26 | The loop collects the records of the `record_*.yaml` files in listing order. |
| ArchivalScript.FirstCanonicalId | TP1/3_arvore_arq.py:32-35 | The inner loop finds the same canonical id as `load_yaml_records`. |
| ArchivalScript.IndexRecords | TP1/3_arvore_arq.py:28-38 | `records_by_id` holds, for each canonical id, the last record with it. Records without one are skipped. Keys are in first-appearance order. |
| ArchivalScript.PlaceNode | TP1/3_arvore_arq.py:78-82 | One partition step appends the node to its parent's children when a parent id is set and present, and to `root_nodes` otherwise. |
| ArchivalScript.Partition | TP1/3_arvore_arq.py:77-82 | After the loop, each node has its listed children appended, and `root_nodes` lists the nodes without a listed parent, in dictionary order. |
| ArchivalScript.PlacedOnce | TP1/3_arvore_arq.py:77-82 | Every node lands in exactly one place: in `root_nodes` if and only if it is no parent's child. It is a child of p exactly when it has a listed parent p. No list repeats a node. |
| ArchivalScript.ScriptRootsMembers | TP1/3_arvore_arq.py:79-82 | The roots are exactly the nodes without a listed parent, each once. |
| ArchivalScript.ScriptRootsAgree | TP1/3_arvore_arq.py:79 | When no node has the empty full id, the script's roots are the roots of `4_arvore_dir.py`. |
| ArchivalScript.NoEmptyPrefixId | TP1/3_arvore_arq.py:43-46 | Canonical ids start with `PT/`, so no prefix is empty. |
| ArchivalScript.PartitionedForest | TP1/3_arvore_arq.py:40-82 | The script's nodes are the forest `load_yaml_records` builds from the same files, and its roots are that forest's roots. |
| ArchivalScript.RunScript | TP1/3_arvore_arq.py:20-85 | The script builds the `load_yaml_records` forest of the `record_*.yaml` files and prints that forest's roots in id order. |
| ArchivalScript.PrintRoots | TP1/3_arvore_arq.py:84-85 | The printed text is each root's `__repr__` followed by a newline, in the given order. |
| ArchivalScript.PrintedForestFollowsVisit | TP1/3_arvore_arq.py:13-18 | Each printed root is its walk with one depth-indented line per node, then a blank line. |
| GetData.SimplifyDate | TP1/get_data.py:120-133 | The certainty is unknown exactly for an empty or missing input, with no start or end. It is exact exactly for one value without `-`, with start = end = that value. Otherwise it is range, with both ends set. |
| GetData.SimplifyDateOfPieces | TP1/get_data.py:127-129 | A single `a-b...` value gives range with the first two pieces, stripped. |
| GetData.SimplifyDateOfSeveral | TP1/get_data.py:132-133 | Two or more values give range from the first to the last element. |
| GetData.FieldCountExtremes | TP1/get_data.py:99-112 | A field's count is 0 exactly when no record has it. It equals the record count exactly when every record has it. |
| GetData.ConstantEntryMeaning | TP1/get_data.py:103-107 | A field's `constant_fields` entry is absent exactly when no record has it. It is a value v exactly when every record holding the field holds v. |
| GetData.ObserveField | TP1/get_data.py:101-107 | One field observation increments its count and updates only that field's constant entry. |
| GetData.AnalyzeRecord | TP1/get_data.py:100-107 | The inner loop observes exactly the fields of one record. |
| GetData.AnalyzeDataStructure | TP1/get_data.py:94-116 | `field_counts` has exactly the fields some record has, with their record counts. `constant_fields` agrees with the reference. `keys` are exactly the fields present in every record of a non-empty list. |
| GetData.RecordsOfTypeMembers | TP1/get_data.py:139-142 | A record is grouped under t if and only if it lists t among its types. |
| GetData.AddToGroups | TP1/get_data.py:141-142 | The inner loop appends the record once per listed type, repeated types included. |
| GetData.AggregateByType | TP1/get_data.py:135-144 | `by_type` has a key exactly for the types some record lists. Each holds those records in input order, a record once per occurrence of the type. |
| GetData.FormatValue | TP1/get_data.py:48 | Formatting fails with IndexError exactly when the format indexes past the value's end. |
| GetData.ConfigFor | TP1/get_data.py:47 | The field config fails with KeyError exactly when `default` is missing, because it is evaluated eagerly. Otherwise it is the field's own entry or the default. |
| GetData.RenderFields | TP1/get_data.py:46-58 | The field loop gives one line per field, or the first error. |
| GetData.PrettyPrint | TP1/get_data.py:33-65 | The printer returns the reference rendering. |
| GetData.PrettyPrintFormats | TP1/get_data.py:44-65 | The result is an unsupported-format error if and only if the format is not html, wiki or yaml. |
| GetData.DefaultConfigErrors | TP1/get_data.py:35-42 | With the default config, rendering fails exactly when a `date` has fewer than two values or an `identifier` has none. |
| GetData.FieldLinesAt | TP1/get_data.py:45-49 | When every field renders, line `i` is field `i`'s configured prefix (or the `default` entry's) and its formatted value, in the style's line shape. |
| GetData.HtmlParagraphs | TP1/get_data.py:45-49 | Every HTML field line is `<p><strong>` + the field's prefix + `</strong>`, then the formatted value, then `</p>`. |
| GetData.HtmlOnePerField | TP1/get_data.py:44-51 | The HTML output splits into `<div class="registo">`, one line per field and `</div>`; line `i` opens with `<p><strong>` + field `i`'s prefix + `</strong>` and closes with `</p>`. |
| GetData.WikiOnePerField | TP1/get_data.py:53-59 | The wiki output splits into one `* `-prefixed line per field. |
| GetData.FieldLinesErrors | TP1/get_data.py:47-48 | A failing field loop raises only KeyError or IndexError. |
| ProcessData.Collapse | TP2/process_data.py:23 | Replacing whitespace runs leaves no two adjacent whitespace characters, and only single spaces. |
| ProcessData.Words | TP2/process_data.py:23 | The maximal non-whitespace runs of a text, as `str.split()` gives them: each is non-empty and holds no whitespace. |
| ProcessData.WordsNone | TP2/process_data.py:23 | A text has no words exactly when it is all whitespace. |
| ProcessData.CollapseWords | TP2/process_data.py:23 | `re.sub(r'\s+', ' ', s)` is the words joined by single spaces. Leading whitespace becomes one space, trailing whitespace one space, and an all-whitespace text a single space. |
| ProcessData.StripCollapsed | TP2/process_data.py:23 | Stripping the collapsed text leaves exactly the words joined by single spaces. |
| ProcessData.CleanText | TP2/process_data.py:18-25 | An empty or missing text gives `""`. Otherwise the result is the text's words, each lowered, joined by single spaces: every whitespace run between words becomes exactly one space and whitespace at the ends goes. The result is normalised: no whitespace at the ends, only single spaces, no upper-case letters. |
| ProcessData.WordsOfTwo | TP2/process_data.py:23 | Two words with a whitespace run between them split into exactly those two words. |
| ProcessData.CleanTextTwoWords | TP2/process_data.py:18-25 | Two words with any non-empty whitespace run between them clean to the two words, lowered, with exactly one space between them. |
| ProcessData.CleanTextOfNormalised | TP2/process_data.py:18-25 | Cleaning leaves a normalised text unchanged. |
| ProcessData.CleanTextIdempotent | TP2/process_data.py:18-25 | Cleaning twice equals cleaning once. |
| ProcessData.CleanTextKeepsContent | TP2/process_data.py:23-25 | Cleaning removes only whitespace: the non-space characters are kept in order, lower-cased. |
| ProcessData.MetadataKey | TP2/process_data.py:39-41 | The key is `schema.element`, with `.qualifier` only for a non-empty qualifier. |
| ProcessData.MetadataKeySplits | TP2/process_data.py:39-41 | For dot-free parts, the key splits back into its two or three parts. |
| ProcessData.Stored | TP2/process_data.py:45-51 | No values give no entry, and a list entry has at least two values. |
| ProcessData.StoredRoundTrip | TP2/process_data.py:45-51 | Reading back a stored entry gives exactly its values in order. |
| ProcessData.AddValue | TP2/process_data.py:45-51 | The first value is stored as a scalar. Later values are appended to the stored values. |
| ProcessData.ValuesForMembers | TP2/process_data.py:34-51 | A value is stored under a key if and only if some field produces that key with that cleaned text. |
| ProcessData.KeysInOrder | TP2/process_data.py:45-51 | The keys are distinct, and exactly those with at least one field. |
| ProcessData.AddField | TP2/process_data.py:45-51 | One merge step updates only the field's key. It appends the key to the order only when it is new. |
| ProcessData.ExtractMetadata | TP2/process_data.py:27-53 | The metadata keys are the keys of the fields in first-seen order. Each holds its fields' cleaned texts in field order, as a scalar when there is one and a list otherwise. |
| Procura.Earliest | TP1/6_procura.py:16-19 | The first year is absent exactly when there are no all-digit dates. Otherwise it is the least of their values. |
| Procura.Latest | TP1/6_procura.py:16-19 | The last year is absent exactly when there are no all-digit dates. Otherwise it is the greatest of their values. |
| Procura.ParseDates | TP1/6_procura.py:15-19 | Both ends are None exactly when no date is all digits. Otherwise they are the least and greatest such year, with start ≤ end. |
| Procura.ParseDatesIgnoresOrder | TP1/6_procura.py:16 | Input order and duplicates do not change the result. |
| Procura.ParseDatesSkipsNonDigits | TP1/6_procura.py:16 | A date that is not all digits, such as `1900-1950`, is ignored. |
| Procura.ParseDatesExample | TP1/6_procura.py:15-19 | `["1950", "1900-1950", "1900", "1950"]` parses to 1900 and 1950. |
| Procura.GetMembers | TP1/6_procura.py:28 | `get(tag)` holds exactly the stripped texts of the elements with a non-empty text. |
| Procura.GetStripped | TP1/6_procura.py:28 | Every value `get` returns is already stripped. |
| Procura.ExtrairDados | TP1/6_procura.py:21-53 | No metadata gives None. Otherwise `url` is the first identifier, `codigo` the second when there are two, and `relacao` the first relation. The dates are `parse_dates` of the record's `date` values: both set or both unset, with start ≤ end. |
| Procura.JoinedValuesSplitBack | TP1/6_procura.py:30-35 | For stripped values free of the bar character, splitting their bar-separated join at the bar and stripping gives back the values in order. |
| Procura.JoinedColumnSplitsBack | TP1/6_procura.py:30-35 | Each of the `titulo`, `assunto`, `tipo` and `formato` columns splits back into that tag's values in document order. |
| Thesaurus.FirstOr | TP1/9_thesaurus.py:10-11 | `get(key, [default])[0]` fails exactly on a present empty list, gives the default when the key is missing, and gives the first element of a present non-empty list. |
| Thesaurus.KeptEntries | TP1/9_thesaurus.py:12-16 | An entry is in `unique_entries` if and only if some record with terms produces it. |
| Thesaurus.KeptFirstOccurrences | TP1/9_thesaurus.py:13-19 | A (category, entry) pair is kept if and only if it comes from the first record with terms producing that entry. |
| Thesaurus.KeptOnce | TP1/9_thesaurus.py:14-16 | No entry is kept twice. |
| Thesaurus.CategoriesInOrder | TP1/9_thesaurus.py:17-18 | The categories are distinct and exactly those of the kept entries. |
| Thesaurus.EntriesIn | TP1/9_thesaurus.py:19 | A category's entries are empty exactly when no kept entry has it. |
| Thesaurus.GroupedAdd | TP1/9_thesaurus.py:14-19 | Keeping a new entry preserves the loop invariant. `unique_entries` and `categorias` describe the records so far. |
| Thesaurus.AddRecord | TP1/9_thesaurus.py:10-19 | One iteration raises exactly when `type` or `title` is an empty list. Otherwise it keeps the invariant. |
| Thesaurus.Categorise | TP1/9_thesaurus.py:9-19 | The loop raises exactly when some record has an empty `type` or `title`. Otherwise `categorias` has the categories in first-seen order, each with its kept entries in input order. |
| Thesaurus.WriteEntry | TP1/9_thesaurus.py:33-39 | One entry is written as `<li>`, `<h3>title</h3>`, `<ul>`, one `<li>term</li>` per term, `</ul>` and `</li>`. |
| Thesaurus.WriteSection | TP1/9_thesaurus.py:31-40 | One category is written as its `<h2 id>` heading, then `<ul>`, its entries and `</ul>`. |
| Thesaurus.WriteIndex | TP1/9_thesaurus.py:26-27 | The index has one link line per category. |
| Thesaurus.WriteSections | TP1/9_thesaurus.py:30-40 | The sections are the categories' sections in order. |
| Thesaurus.WriteThesaurus | TP1/9_thesaurus.py:22-42 | The file is the page head, the index, every section and the page end, one line each. |
| Thesaurus.IndexReadsBack | TP1/9_thesaurus.py:26-27 | Each index line links back to exactly its category. |
| Thesaurus.IndexLinksOnce | TP1/9_thesaurus.py:26-27 | The index lists every category exactly once. |
| Thesaurus.TermsReadBack | TP1/9_thesaurus.py:36-37 | Each term line reads back to its term, in order. |
| Text.SplitJoin | TP1/6_procura.py:30 | Splitting a join at a separator absent from the pieces gives the pieces back. |
| Text.JoinSplit | TP1/4_arvore_dir.py:44-46 | Joining the pieces of a split gives the string back. |
| Text.LowerOfLower | TP2/process_data.py:25 | Lower-casing is idempotent. |

## Left out

- Collapse: its own ensures give only the spacing shape of the result; the
  whole result is stated by the lemma `ProcessData.CollapseWords`.
- File and network I/O are not modelled.
  - `os.listdir`, `open` and `yaml.safe_load` are left out. The directory
    listing is a given sequence of (file name, record) pairs.
  - `os.makedirs` and the README/HTML/thesaurus file writes are left out.
    The directory renderer returns the paths and README texts it would
    create. The HTML and thesaurus writers return the text they would write.
  - `print` is left out.
  - The OAI-PMH harvesting through sickle/requests is left out, as is the
    module-level harvest loop of `TP1/get_data.py`.
  - `save_output` and `save_records_html` are left out.
- XML parsing through ElementTree/lxml is left out, including `xml_to_json`
  and the `find`/`findall` calls of `extrair_dados`. The model starts from the
  parsed element texts and fields.
- SQLite/FTS5 indexing, spaCy entity extraction, `guess_similarity` (floating
  point) and `create_training_collection` (randomness) are not part of this
  model.
- `generate_html_tree_with_links` scans the record directory again for every
  node. The model treats it as a pure scan of the same listing
  (`ArchivalRender.SourceFile`).
- Python's Unicode `\s`, `str.isdigit`, `str.lower` and `str.strip` are
  approximated.
  - Whitespace is the ASCII space, tab, newline, carriage return, vertical
    tab and form feed.
  - Digits are `0`-`9` and upper case is `A`-`Z`.
  - A date that Python's `isdigit` accepts but that holds non-ASCII digits
    is ignored. Python would read it as a year or, for digits such as `²`,
    raise a ValueError.
- Object identity is replaced by keys. `children` holds child full ids, not
  node objects, and no aliasing between the nodes dict and the children lists
  is modelled.
- YAML values are restricted to the shapes the code reads.
  - `identificadores` is a list of strings.
  - `titulo` and `tipo` are optional strings. An explicit YAML null is
    treated like a missing key, which differs from Python for `titulo`.
  - A record whose YAML is not a mapping, which Python would reject with an
    AttributeError, is not modelled.
- The `format` entries of a `pretty_print` config are limited to the three
  shapes the default config uses: `{value}`, `{value[0]}` and
  `{value[0]} - {value[1]}`.
  - Python's `repr` of a list is approximated by `ListRepr` (values quoted
    with `'`, no escaping).
  - The yaml output is an opaque rendering of the record (`yaml.dump` is a
    library call).
- GetData.AnalyzeDataStructure: the three `print` calls and their formatting
  are left out. The contract states the dictionaries and the key set they
  print.
- Thesaurus.Categorise: when a record has an empty `type` or `title`, Python
  raises an IndexError and the file is never written. The model returns None
  and does not describe a partially written file.
- The code does not validate identifiers: `split("/")` on `PT//B` yields an
  empty segment, which becomes a node like any other, and the model does the
  same.
- Node values and sibling order are proved independent of the listing order
  only when no two files share a canonical id
  (`ArchivalTree.LoadOrderIndependent`). With duplicate ids, Python keeps the
  last file in `os.listdir` order, and the model keeps the last file of the
  given listing.
- ArchivalRender.OutputsIgnoreListingOrder: the HTML comparison uses the same
  listing for the source-file lookup on both sides. The link chosen for a node
  is the first matching file in listing order, so it can change with the
  order.
