# Publication dataset builder and schema compiler, modelled in Dafny

This project models the two parts of the publication-curation pipeline that have
exact behaviour. The first is the per-row decision logic of the dataset builder
(`create_dataset.py`). The second is the CSV-specification to JSON Schema compiler
(`csv_to_jsonschema.py`).

**Dataset builder** (`create_dataset.dfy`, module `Dataset`). It keeps the manifest
rows whose "Publication Accessibility" is "Open Access". For each such row it:

- resolves the PMID to a PMCID through the NCBI ID converter;
- fetches the BioC XML of the article and joins its non-empty `passage/text` texts
  with single spaces;
- counts the tokens of that text.

For every processed row it writes exactly one audit line `PMID,PMCID,TokenCount,Included`
to the log. It writes a batch request (custom id `pub-<pmid>`, `POST
/v1/chat/completions`, model `gpt-4o-mini`, a system message then a user message)
only when the PMCID and the text are non-empty and the count is below 200000.

The two web services and the tokenizer are inputs (`Remote`). The ID converter's
answer is a status and a list of records, each with an optional `pmcid`. The BioC
answer is a status and either the list of optional passage texts or `None` for an
XML parse error. The tokenizer is an arbitrary function from text to a natural
number. The log is a sequence of lines. The dataset is a sequence of `Entry` values.
`BuildDataset` is the row loop of `main`. It is proved equal to a fold over the
open-access rows (`LogLines`, `Entries`), and the lemmas state what that fold
guarantees.

**Schema compiler** (`csv_to_jsonschema.dfy`, module `SchemaCompiler`). It keeps the
rows whose `Attribute` is one of five names: "Pubmed Id", "Publication Assay",
"Publication Tumor Type", "Publication Tissue" and "Publication Dataset Alias". Each
kept row becomes a draft-07 property:

- its key is the attribute with the spaces removed;
- its `title` is the attribute itself;
- its `type` is `array` with `items.type` `string` exactly when the validation rule
  is `list like`, and `string` otherwise;
- when "Valid Values" is present, it gets an `enum` made of the comma-separated,
  stripped values (on `items` for arrays, on the property for strings).

The keys of rows whose `Required` cell is true are collected in `required`, in row
order. A later row with the same key replaces the earlier property. The top-level
keywords are fixed: `$schema` is `http://json-schema.org/draft-07/schema#`, `type` is
`object`, and the title and description are constants. NaN cells of the optional columns are `Option.None`.
`CsvToJsonSchema` is the loop of `csv_to_json_schema`. It is proved equal to the fold
`Compile`.

**Strings** (`strings.dfy`). These are the Python string operations the two scripts
use: `sep.join`, `split` on one character, `strip()`, `replace(" ", "")` and `str(n)`.
Each comes with its inverse or a characterisation (split/join round trips, strip cuts
only whitespace and is idempotent, `str(n)` reads back as `n`).

Error paths:

- A response whose status is not 200 gives `None` from either fetcher
  (create_dataset.py:15, 27). The model covers these cases in `FetchPmcid` and
  `FetchArticleText`.
- When the XML parses but has no non-empty passage, `fetch_article_text` returns the
  empty string. The row loop then logs `Error-NoText-or-XMLParseError`, as it does
  for a parse error.
- The only exception the code catches is the XML parse error. A transport error
  (connection failure, timeout), an unreadable JSON answer, or a tokenizer error
  raises out of `main` and ends the run. The model covers only the outcomes the code
  handles (see "Left out").

## Model

| member | source | states |
|---|---|---|
| `Strings.Join` | create_dataset.py:42 | `sep.join`: empty for no pieces; otherwise its length is the pieces' total length plus one separator between each pair of consecutive pieces |
| `Strings.Split` | csv_to_jsonschema.py:62 | `split(',')` gives one more piece than there are separators, and no piece contains the separator |
| `Strings.JoinSplit` | csv_to_jsonschema.py:62 | joining the pieces of a split with the same separator gives back the original string |
| `Strings.SplitJoin` | create_dataset.py:42 | splitting a join of at least one piece, where no piece contains the separator, gives back the pieces |
| `Strings.JoinEmptyIff` | create_dataset.py:42 | a join of non-empty pieces is empty exactly when there are no pieces |
| `Strings.TrimStart` | csv_to_jsonschema.py:62 | the leading half of `strip()`: keeps a suffix, cuts only whitespace, and the result does not start with whitespace |
| `Strings.TrimEnd` | csv_to_jsonschema.py:62 | the trailing half of `strip()`: keeps a prefix, cuts only whitespace, and the result does not end with whitespace |
| `Strings.Strip` | csv_to_jsonschema.py:62 | `strip()` never lengthens a value, and a non-empty result neither starts nor ends with whitespace; `StripIsTrimmedSlice` fixes its content |
| `Strings.StripIsTrimmedSlice` | csv_to_jsonschema.py:62 | `strip()` keeps a contiguous slice, everything cut around it is whitespace, and the slice neither starts nor ends with whitespace |
| `Strings.StripIdempotent` | csv_to_jsonschema.py:62 | stripping a stripped value changes nothing |
| `Strings.RemoveAll` | csv_to_jsonschema.py:43 | `replace(" ", "")` leaves no space, keeps every other character, and shortens the string by the number of spaces |
| `Strings.RemoveAllConcat` | csv_to_jsonschema.py:43 | removing spaces distributes over concatenation, so the kept characters stay in order |
| `Strings.NatToString` | create_dataset.py:176 | `str(token_count)` is a non-empty run of decimal digits without a leading zero |
| `Strings.ParseNat` | create_dataset.py:176 | reading a number back succeeds exactly on non-empty digit strings |
| `Strings.ParseNatToString` | create_dataset.py:176 | a rendered token count reads back as the same number |
| `Dataset.FetchPmcid` | create_dataset.py:11-20 | a PMCID is returned exactly when the status is 200, `records` is non-empty and the first record has a `pmcid`, and it is that record's value |
| `Dataset.FetchPmcidReadsFirstRecordOnly` | create_dataset.py:17-19 | records after the first never change the resolved PMCID |
| `Dataset.KeptPassages` | create_dataset.py:41-42 | the kept passage texts are exactly the non-empty texts of the passages; none of them is empty |
| `Dataset.KeptPassagesConcat` | create_dataset.py:41-42 | the passage filter keeps document order: it distributes over concatenation |
| `Dataset.ExtractText` | create_dataset.py:42 | the article text is empty exactly when no passage text is kept; `ExtractTextCons` and `ExtractTextSkip` fix its content passage by passage |
| `Dataset.ExtractTextEmptyIff` | create_dataset.py:41-43 | the article text is empty exactly when no passage has a non-empty text, including when there are no passages |
| `Dataset.ExtractTextCons` | create_dataset.py:41-42 | a passage with non-empty text in front of the others puts its text in front of the article text, then one space if any later passage is kept; alone it is the whole article text |
| `Dataset.ExtractTextSkip` | create_dataset.py:41-42 | a passage with no text or empty text in front of the others adds nothing to the article text |
| `Dataset.ExtractTextSplitsIntoPassages` | create_dataset.py:41-43 | when at least one passage is kept and no passage contains a space, splitting the article text on spaces gives back the kept passages, so they were joined by exactly one space |
| `Dataset.FetchArticleText` | create_dataset.py:22-47 | the text is absent exactly when the status is not 200 or the XML does not parse; otherwise it is the joined passages, possibly empty |
| `Dataset.ParseStatus` | create_dataset.py:176-182 | the `Included` column reads back to a status exactly when it is the text of that status, so the four texts are distinct |
| `Dataset.Classify` | create_dataset.py:82-96 | the row is `NoPmcid` exactly when the PMCID is missing or empty; `NoText` exactly when the text is missing or empty; `Accepted` exactly when both are present and the count is below 200000; `TooManyTokens` otherwise |
| `Dataset.RecordOf` | create_dataset.py:95-182 | the status is `Yes`, `No`, `Error-NoText-or-XMLParseError` or `Error-NoPMCID` exactly for accepted, over-limit, text-less and PMCID-less rows; the PMCID column is `None` only without a PMCID; the count is 0 on both error paths |
| `Dataset.StatusText` | create_dataset.py:176-182 | each `Included` text is non-empty and holds no comma, so it stays one field of the line; `ParseStatus` is its inverse |
| `Dataset.RenderLog` | create_dataset.py:176-182 | the audit line of a record; `RenderLogFields` spells it out, and `LogLineRoundTrip` proves that `ParseLogLine` reads it back |
| `Dataset.RenderLogFields` | create_dataset.py:176 | an audit line is PMID, PMCID, count and status separated by commas |
| `Dataset.LogLineOfOutcome` | create_dataset.py:176-182 | the audit line of each branch: `pmid,None,0,Error-NoPMCID`, `pmid,pmcid,0,Error-NoText-or-XMLParseError`, `pmid,pmcid,count,No`, `pmid,pmcid,count,Yes` |
| `Dataset.LogLineRoundTrip` | create_dataset.py:176-182 | when PMID and PMCID hold no comma, every audit line reads back as the record it was written from |
| `Dataset.BuildEntry` | create_dataset.py:111-166 | the batch request has `custom_id` `pub-<pmid>`, method `POST`, url `/v1/chat/completions`, model `gpt-4o-mini`, and exactly two messages: the fixed system instruction, then a `user` message carrying the schema, the row's title, journal, year, authors, PMID, the PMCID, the row's abstract and the full text, each in its own slot |
| `Dataset.OpenAccessRows` | create_dataset.py:64 | the filter never adds rows; `OpenAccessRowsMembers` and `OpenAccessRowsConcat` fix which rows it keeps and their order |
| `Dataset.OpenAccessRowsMembers` | create_dataset.py:64 | the processed rows are exactly the input rows marked "Open Access" |
| `Dataset.OpenAccessRowsConcat` | create_dataset.py:64 | the filter keeps input order: it distributes over concatenation |
| `Dataset.LogLines` | create_dataset.py:77-182 | one audit line per processed row |
| `Dataset.LogLineAt` | create_dataset.py:77-182 | the i-th audit line is the line of the i-th processed row |
| `Dataset.RowEntries` | create_dataset.py:84-171 | a processed row adds at most one batch request, and adds one exactly when its outcome is `Accepted` |
| `Dataset.Entries` | create_dataset.py:84-171 | the dataset has at most one batch request per processed row; `EntriesAreYesRows` fixes which requests it holds and their order |
| `Dataset.YesRows` | create_dataset.py:169-171 | a row is among the `Yes` rows exactly when it was processed and its status is `Yes` |
| `Dataset.EntriesAreYesRows` | create_dataset.py:84-171 | the dataset has one batch request per `Yes` row, in row order, and the k-th record is built from the k-th `Yes` row's PMCID and text |
| `Dataset.NonOpenAccessRowIgnored` | create_dataset.py:64-77 | inserting a row that is not open access anywhere in the input changes neither the log nor the dataset |
| `Dataset.SinglePassageAccepted` | create_dataset.py:82-96 | a PMID that resolves to a non-empty PMCID, whose article has a single non-empty passage counting fewer than 200000 tokens, is accepted with that passage as its text |
| `Dataset.AcceptedSingleRowRun` | create_dataset.py:82-176 | a run over one such open-access row logs `pmid,pmcid,count,Yes` and writes exactly that row's batch request |
| `Dataset.AcceptedRowExample` | create_dataset.py:82-176 | PMID 12345 resolving to PMC000001 with a 500-token text logs `12345,PMC000001,500,Yes` and writes one record `pub-12345` |
| `Dataset.NoPmcidRowExample` | create_dataset.py:180-182 | an unresolvable PMID 99999 logs `99999,None,0,Error-NoPMCID` and writes no record |
| `Dataset.ProcessRow` | create_dataset.py:78-182 | one pass of the row loop returns the audit line of the row's outcome, and the row's batch request exactly when it is accepted |
| `Dataset.BuildDataset` | create_dataset.py:54-185 | the log starts with the header `PMID,PMCID,TokenCount,Included` and then holds one line per open-access row, in order; the dataset holds the records of the accepted rows, in order |
| `SchemaCompiler.FilterKeepsTargets` | csv_to_jsonschema.py:20-28 | the kept rows are exactly the input rows whose attribute is one of the five target names |
| `SchemaCompiler.Filter` | csv_to_jsonschema.py:28 | the filter never adds rows; `FilterKeepsTargets` and `FilterConcat` fix which rows it keeps and their order |
| `SchemaCompiler.FilterConcat` | csv_to_jsonschema.py:28 | the filter keeps row order: it distributes over concatenation |
| `SchemaCompiler.PropertyKey` | csv_to_jsonschema.py:43 | a property key contains no space |
| `SchemaCompiler.EnumValues` | csv_to_jsonschema.py:62 | one enum value per comma-separated piece of the cell, in order, and value k is piece k with `strip()` applied |
| `SchemaCompiler.EnumValuesShape` | csv_to_jsonschema.py:60-63 | the enum has one value per comma-separated piece; no value contains a comma, and no value starts or ends with whitespace |
| `SchemaCompiler.EnumValueAt` | csv_to_jsonschema.py:62 | value k of the enum is a slice of piece k of the cell, and everything cut off before and after it is whitespace |
| `SchemaCompiler.EnumValuesRoundTrip` | csv_to_jsonschema.py:60-63 | when no piece has surrounding whitespace, joining the enum with commas gives back the "Valid Values" cell |
| `SchemaCompiler.PropertyFor` | csv_to_jsonschema.py:46-75 | `type` is `array` exactly when the rule is `list like`, and then `items.type` is `string`; otherwise `type` is `string` with no `items`; the title and description are the row's; there is an enum exactly when "Valid Values" is present, and it is the split, stripped cell |
| `SchemaCompiler.PropertiesOf` | csv_to_jsonschema.py:78 | no property key holds a space; `PropertiesKeys` and `LastRowWins` fix the keys and the property stored under each |
| `SchemaCompiler.RequiredOf` | csv_to_jsonschema.py:81-82 | `required` has at most one key per row and no key holds a space; `RequiredMembers` and `RequiredOfConcat` fix its members and order |
| `SchemaCompiler.PropertiesKeys` | csv_to_jsonschema.py:41-78 | the properties are keyed by exactly the keys of the kept rows |
| `SchemaCompiler.RequiredMembers` | csv_to_jsonschema.py:81-82 | a key is in `required` exactly when some kept row with that key has `Required` true; `required` is no longer than the rows |
| `SchemaCompiler.PropertyKeysAreTargetKeys` | csv_to_jsonschema.py:20-43 | every property key is one of the five target names with its spaces removed, and holds no space |
| `SchemaCompiler.LastRowWins` | csv_to_jsonschema.py:78 | the property under a key is the one built from the last row with that key |
| `SchemaCompiler.PropertyOfRow` | csv_to_jsonschema.py:41-78 | for the last kept row with its key, the document's property is an array of strings exactly when the rule is `list like`, is titled with the attribute, and has an enum exactly when "Valid Values" is present |
| `SchemaCompiler.RequiredOfConcat` | csv_to_jsonschema.py:81-82 | `required` follows row order: the rows of a prefix contribute a prefix |
| `SchemaCompiler.NonTargetRowIgnored` | csv_to_jsonschema.py:20-28 | inserting a row whose attribute is not a target anywhere in the input leaves the document unchanged |
| `SchemaCompiler.Compile` | csv_to_jsonschema.py:5-84 | the document lists at most one required key per input row, and no key in `properties` or `required` holds a space; the lemmas on `PropertiesOf` and `RequiredOf` fix the rest |
| `SchemaCompiler.CsvToJsonSchema` | csv_to_jsonschema.py:5-84 | the loop's document is `Compile(rows)`, with `$schema` the draft-07 URI, `type` `object` and the fixed title and description |

## Left out

- HTTP: the two `requests.get` calls are replaced by the `Remote` functions. The model
  assumes a service answers the same identifier the same way within one run. Transport
  errors (connection failure, timeout) and an undecodable JSON answer are not
  modelled; in the code they end the run. A non-200 status is modelled.
- XML parsing by `ElementTree` is not modelled. Its result is given as the optional
  list of passage texts, with `None` for a parse error.
- `tiktoken` is not modelled. The token count is an arbitrary total function from text
  to a natural number. The model therefore leaves out the `ValueError` that
  `encoding.encode` raises (create_dataset.py:52) when the text contains a special-token
  string such as `<|endoftext|>`. That error ends the run, as a transport error does.
- Writing the raw XML file, creating `xml_content/`, and opening and truncating the
  output files are not modelled. The outputs are returned as sequences: log lines
  without their newline, and `Entry` values for the dataset lines.
- `json.dumps` of the schema and of the batch request is not modelled: the schema is an
  opaque string, and a batch request is a datatype rather than its JSON text.
- The system instruction and the user-message template are not modelled as text. The
  system message is the constant `SystemInstruction`. The user message is the
  datatype of the values the template interpolates.
- pandas CSV loading is not modelled; each input is a sequence of row records. A NaN
  cell is `None` where it changes behaviour ("Valid Values", "Required", "Validation
  Rules", "Description"). A NaN accessibility is any string other than "Open
  Access". NaN metadata cells that the code would print as `nan` are not modelled.
  A `Required` cell that pandas reads as a string rather than a boolean is not
  modelled.
- The properties of the generated schema are a map. The insertion order of the
  Python dict, which fixes the key order of the written JSON, is not modelled.
- `time.sleep`, `print`, the command-line handling of the compiler and
  `generate_schema_file`'s file write are not modelled.
- create_batch.py is not part of this model. It only uploads the dataset and creates
  a batch job through the OpenAI client.
