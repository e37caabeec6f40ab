# Yoga pose document builder, modelled in Dafny

The import script of the yoga-poses recommender loads a list of pose records.
It turns every record into a LangChain document. It then embeds the documents
and stores them, each under a freshly drawn id, in a MongoDB Atlas vector
collection. The only logic of its own is the document builder,
`create_langchain_documents`. The builder writes five fields of a pose as
`key: value` lines, strips the result, and attaches the pose itself as
metadata. This project models that builder and proves what it guarantees. It
also models the part of `main` that feeds the builder and pairs its
documents with ids.

Files:

- `wrappers.dfy`: module `Wrappers`, the `Option` and `Result` types.
- `pystr.dfy`: module `PyStr`, the Python string operations the builder
  relies on. `IsSpace` is Python's `str.isspace`, with the exact set of
  characters that `str.strip()` removes. `Strip` is `str.strip()`, built
  from `LStrip` and `RStrip`. `Join` and `Split` are `'\n'.join` and
  `str.split('\n')`; the lemmas use them to talk about lines.
- `documents.dfy`: module `PoseDocuments`. A pose is a
  `map<string, string>`, and an absent key is where `dict.get` falls back
  to its default. `ShownValues` holds the five `pose.get` lookups,
  `Format`/`Render` the text before the strip, and `Text` the page content.
  `CreateDocuments` is the builder. Its loop is written once, generically,
  as `Collect` applied to `MakeDoc`, one loop iteration; the documents it
  produces are the same.
- `ingest.dfy`: module `ImportData`. `RunImport` models `main` up to the
  hand-off to the vector store.

What the proofs establish:

- One document per pose, in input order. Document i's metadata is pose i,
  unchanged. Its page content is `Text(pose i)`.
- Before stripping, the text is five lines joined by newlines plus a final
  newline. The lines are `name`, `description`, `sanskrit_name`,
  `expertise_level` and `pose_type`, in that order. A key that is present
  shows its stored value, even an empty one. An absent `name`,
  `description` or `sanskrit_name` shows `""`. An absent `expertise_level`
  or `pose_type` shows `N/A`.
- The strip never removes anything from the front: the text always starts
  with `name: `. It never reaches past the colon of `pose_type:`. It cuts
  only whitespace, and the result never ends in whitespace, so the final
  newline is always gone.
- The page content is the rendering minus exactly its final newline if and
  only if the shown `pose_type` value is non-empty and does not end in
  whitespace. Only this field matters, because every other value is
  followed by a line that starts with a letter. When `pose_type` is present
  but empty, the strip also removes the space after `pose_type:`, so the
  text ends in `pose_type:`.
- An example record, "Downward Dog" with all five keys, gives the
  five-line text of its stored values, and its metadata is the record
  itself.

For a real list the builder is total: the loop at import-data.py:52-65 has
no failure path. However, `main` passes the loader's result to the builder
without a check, and the loader returns `None` on failure.
`for pose in None` then raises `TypeError`. `RunImport` models this as
`Failure(PosesNotIterable)`, reached before anything is embedded or stored.

## Model

| member | source | states |
|---|---|---|
| PoseDocuments.CreateDocuments | import-data.py:49-67 | one document per pose, same count and same order; document i's metadata is pose i unchanged and its page content is the stripped rendering of pose i |
| PoseDocuments.Collect | import-data.py:51-65 | the loop appends exactly one built element per input element, in input order, and nothing else |
| PoseDocuments.Get | import-data.py:55-59 | `pose.get(key, default)`: the stored value when the key is present, the default otherwise |
| PoseDocuments.Lookups | import-data.py:55-59 | the lookups of a field table, one value per field, in field order |
| PoseDocuments.ShownValues | import-data.py:55-59 | the five values the page content shows, from the lookups of `Fields` (name, description, sanskrit_name with fallback "", expertise_level, pose_type with fallback "N/A") |
| PoseDocuments.Format | import-data.py:54-59 | the f-string: five `key: value` lines, each followed by a newline, for given shown values |
| PoseDocuments.Render | import-data.py:54-59 | the f-string applied to a pose's shown values, the text before the strip |
| PoseDocuments.Text | import-data.py:54-60 | a pose's page content: the rendering passed through `.strip()` |
| PoseDocuments.MakeDoc | import-data.py:54-64 | one loop iteration: the document with the pose's page content and the pose itself as metadata |
| PoseDocuments.LookupsAreGets | import-data.py:55-59 | each lookup of the field table is `dict.get`: the stored value when the key is present, the field's fallback otherwise |
| PoseDocuments.ShownValuesDefaults | import-data.py:55-59 | the five shown values are the stored values of present keys, even empty ones; an absent name/description/sanskrit_name shows "" and an absent expertise_level/pose_type shows "N/A" |
| PoseDocuments.RenderIsFieldLines | import-data.py:54-59 | for every pose, the unstripped text is the five `key: value` lines in the fixed order joined by `\n` plus a final `\n`; a present key shows its stored value even when empty, an absent name/description/sanskrit_name shows "" and an absent expertise_level/pose_type shows "N/A" |
| PoseDocuments.RenderedLines | import-data.py:54-59 | read back with `split('\n')`, a rendering whose values hold no newline gives exactly six pieces: the five field lines with the stored value or the default, in order, then "" |
| PoseDocuments.FormatIsJoinedLines | import-data.py:54-59 | the concatenated f-string pieces equal the independent list of five lines joined by newlines, plus a trailing newline |
| PoseDocuments.FormatSplitsIntoLines | import-data.py:54-59 | splitting the unstripped text at newlines recovers the five lines and a final empty piece when no value contains a newline |
| PoseDocuments.TextAfterHead | import-data.py:54-60 | for a pose, the page content is the untouched head followed by the right-stripped ` <pose_type value>` |
| PoseDocuments.TextKeepsHead | import-data.py:54-60 | the page content starts with `name: ` (the leading strip removes nothing) and keeps all of the rendering through `pose_type:` |
| PoseDocuments.TextTrailing | import-data.py:54-60 | the page content is the rendering minus trailing whitespace only, and it is non-empty and never ends in whitespace, so the trailing `\n` is gone |
| PoseDocuments.TextDropsOnlyNewline | import-data.py:59-60 | the page content equals the rendering minus exactly its final `\n` if and only if the shown pose_type value is non-empty and does not end in whitespace |
| PoseDocuments.DownwardDogShown | import-data.py:55-59 | a record that has all five keys shows its stored values, not the defaults |
| PoseDocuments.DownwardDogRender | import-data.py:54-59 | the example record renders as its five lines in order, each followed by a newline |
| PoseDocuments.DownwardDogContent | import-data.py:54-60 | the example record's page content is the five-line text without the final newline |
| PoseDocuments.DownwardDogExample | import-data.py:49-67 | building the one-record list gives exactly one document with its five-line text and the record itself as metadata |
| ImportData.RunImport | import-data.py:89-108 | a failed load (None) stops the run with PosesNotIterable and nothing stored; otherwise the store batch has one entry per pose in pose order, entry i pairing the i-th id draw with pose i's document |
| PyStr.IsSpace | import-data.py:60 | Python's `str.isspace` on one character, the set of characters `.strip()` removes: ASCII 9-13, 28-32, U+0085, U+00A0, U+1680, U+2000-U+200A, U+2028, U+2029, U+202F, U+205F, U+3000 |
| PyStr.Strip | import-data.py:60 | `str.strip()`: the result is one contiguous piece of the input with only whitespace before and after it, it neither starts nor ends in whitespace, it is empty exactly for all-whitespace input, and input that starts with a non-space is only right-stripped |
| PyStr.RStrip | import-data.py:60 | the trailing half of the strip: the longest prefix not ending in whitespace, with only whitespace dropped |
| PyStr.LStrip | import-data.py:60 | the leading half of the strip: a suffix not starting with whitespace, with only whitespace dropped |
| PyStr.RStripUnique | import-data.py:60 | the trailing strip is the only prefix that ends in non-whitespace and leaves only whitespace behind |
| PyStr.StripShapeAfterSolid | import-data.py:60 | stripping a text that begins with a solid head keeps the head and returns a prefix of the input that does not end in whitespace, with only whitespace cut |
| PyStr.StripSolidStart | import-data.py:60 | a text that starts with non-whitespace loses only trailing whitespace to the strip, and what remains is non-empty and does not end in whitespace |
| PyStr.StripDropsOnlyLast | import-data.py:60 | after a solid head, stripping `w + "\n"` gives exactly the text minus its final newline if and only if `w` is empty or does not end in whitespace |
| PyStr.SplitJoin | import-data.py:54-59 | splitting lines joined by `\n` recovers the lines when none of them contains a newline |

## Left out

- `load_yoga_poses_data_from_hugging_face` and `load_yoga_poses_data_from_local_file` (import-data.py:19-46): dataset download, file reading and `json.loads` are foreign calls. Their result enters `RunImport` as an `Option` parameter.
- `create_mongodb_collection_and_search_index` (import-data.py:70-86) and `vector_store.add_documents` (import-data.py:108): network calls into MongoDB whose behaviour the store defines. The model stops at the batch of (id, document) pairs that is handed over.
- `VertexAIEmbeddings` (import-data.py:98-102): a hosted model call that produces floating-point vectors.
- `uuid4` (import-data.py:106): random ids. `RunImport` takes the draws as a parameter, `newId(i)` for the i-th draw. It makes no claim that they are unique, because uniqueness is only probabilistic.
- search-data.py as a whole: argument parsing, a remote similarity query and printing.
- `settings` and logging: configuration and output. The settings module is not part of this model.
- Lone surrogates: a Python `str` can hold them (`json.loads` produces one from `"\ud800"`), but a Dafny `char` is a Unicode scalar value. No surrogate is whitespace, so this does not change what the strip does to any string the model can hold.
- Key order of the metadata: `metadata = pose` (import-data.py:62) passes on the dict with its insertion order, and `Pose` is a `map`, which has none. The builder never iterates the metadata.
- Non-string field values: Python would format them with `str()` (`None` becomes `"None"`). The model takes records whose values are strings.
