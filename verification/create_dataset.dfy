/**
 * The per-row decision logic of the publication dataset builder
 * (`create_dataset.py`): resolve a PMID to a PMCID, fetch and flatten the
 * article's BioC passages, gate on the token count, and write one audit
 * line per open-access row plus one batch request per accepted row.
 *
 * The two web services and the tokenizer are inputs (`Remote`); the two
 * output files are sequences (lines of the audit log, entries of the
 * JSON-lines dataset).
 */
module Dataset {

  import opened Wrappers
  import opened Strings

  // ---------------------------------------------------------------------------
  // Inputs

  /** The columns of one manifest row that the builder reads; `pmid` is `str(row["Pubmed Id"])`. */
  datatype PubRow = PubRow(
    pmid: string,
    title: string,
    journal: string,
    year: string,
    authors: string,
    abstractText: string,
    accessibility: string)

  /** One record of the ID converter's JSON answer; `pmcid` is `None` when the key is missing. */
  datatype IdRecord = IdRecord(pmcid: Option<string>)

  /** The ID converter's answer: HTTP status and its `records` list (a missing list reads as empty). */
  datatype IdConvResponse = IdConvResponse(status: int, records: seq<IdRecord>)

  /**
   * The BioC service's answer: HTTP status and the texts of the `passage/text`
   * elements in document order (`None` for an element without text), or
   * `None` in place of the whole list when the XML does not parse.
   */
  datatype BiocResponse = BiocResponse(status: int, passages: Option<seq<Option<string>>>)

  /** The outside world as seen from one run: both services and the tokenizer. */
  datatype Remote = Remote(
    idConv: string -> IdConvResponse,
    bioc: string -> BiocResponse,
    countTokens: string -> nat)

  const HttpOk := 200
  const MaxTokens := 200000
  const OpenAccess := "Open Access"

  /** Python truthiness of an optional string: present and non-empty. */
  predicate Truthy(s: Option<string>)
  {
    s.Some? && s.value != ""
  }

  // ---------------------------------------------------------------------------
  // fetch_pmcid_from_pmid

  /** The PMCID of the first record of a successful answer, if that record has one. */
  function FetchPmcid(resp: IdConvResponse): (r: Option<string>)
    ensures r.Some? <==> resp.status == HttpOk && resp.records != [] && resp.records[0].pmcid.Some?
    ensures r.Some? ==> r.value == resp.records[0].pmcid.value
  {
    if resp.status == HttpOk && resp.records != [] && resp.records[0].pmcid.Some?
    then resp.records[0].pmcid
    else None
  }

  /** Records after the first one never influence the resolved PMCID. */
  lemma FetchPmcidReadsFirstRecordOnly(status: int, first: IdRecord, later1: seq<IdRecord>, later2: seq<IdRecord>)
    ensures FetchPmcid(IdConvResponse(status, [first] + later1))
         == FetchPmcid(IdConvResponse(status, [first] + later2))
  {
  }

  // ---------------------------------------------------------------------------
  // fetch_article_text

  /** `[p.text for p in passages if p.text]`: the non-empty texts, in document order. */
  function KeptPassages(passages: seq<Option<string>>): (r: seq<string>)
    ensures |r| <= |passages|
    ensures forall k :: 0 <= k < |r| ==> r[k] != ""
    ensures forall t :: t in r <==> t != "" && Some(t) in passages
  {
    if passages == [] then []
    else
      var rest := KeptPassages(passages[1..]);
      assert passages == [passages[0]] + passages[1..];
      if Truthy(passages[0]) then [passages[0].value] + rest else rest
  }

  /** Filtering passages respects document order: it distributes over concatenation. */
  lemma {:induction false} KeptPassagesConcat(a: seq<Option<string>>, b: seq<Option<string>>)
    ensures KeptPassages(a + b) == KeptPassages(a) + KeptPassages(b)
  {
    if a != [] {
      assert (a + b)[1..] == a[1..] + b;
      KeptPassagesConcat(a[1..], b);
    } else {
      assert a + b == b;
    }
  }

  /** The flattened article text: the kept passages joined by single spaces. */
  function ExtractText(passages: seq<Option<string>>): (text: string)
    ensures text == "" <==> KeptPassages(passages) == []
  {
    var kept := KeptPassages(passages);
    JoinEmptyIff(kept, ' ');
    Join(kept, ' ')
  }

  /** The article text is empty exactly when no passage has a non-empty text (no passages at all included). */
  lemma ExtractTextEmptyIff(passages: seq<Option<string>>)
    ensures ExtractText(passages) == "" <==> forall k :: 0 <= k < |passages| ==> !Truthy(passages[k])
  {
    var kept := KeptPassages(passages);
    JoinEmptyIff(kept, ' ');
    if kept != [] {
      assert kept[0] in kept;
      var k :| 0 <= k < |passages| && passages[k] == Some(kept[0]);
      assert Truthy(passages[k]);
    } else {
      forall k | 0 <= k < |passages| ensures !Truthy(passages[k]) {
        if passages[k].Some? {
          assert Some(passages[k].value) in passages;
        }
      }
    }
  }

  /**
   * A passage with non-empty text in front of the others puts its text in
   * front of the article text, followed by one space when any later passage
   * is kept; alone it is the whole article text.
   */
  lemma ExtractTextCons(t: string, rest: seq<Option<string>>)
    requires t != ""
    ensures KeptPassages(rest) == [] ==> ExtractText([Some(t)] + rest) == t
    ensures KeptPassages(rest) != [] ==> ExtractText([Some(t)] + rest) == t + " " + ExtractText(rest)
  {
    KeptPassagesConcat([Some(t)], rest);
    assert KeptPassages([Some(t)]) == [t] by {
      assert [Some(t)][1..] == [];
    }
    var kept := KeptPassages(rest);
    if kept == [] {
      assert [t] + kept == [t];
    } else {
      JoinCons(t, kept, ' ');
    }
  }

  /** A passage that is missing or has empty text adds nothing to the article text. */
  lemma ExtractTextSkip(p: Option<string>, rest: seq<Option<string>>)
    requires !Truthy(p)
    ensures ExtractText([p] + rest) == ExtractText(rest)
  {
    KeptPassagesConcat([p], rest);
    assert KeptPassages([p]) == [] by {
      assert [p][1..] == [];
    }
    assert [] + KeptPassages(rest) == KeptPassages(rest);
  }

  /**
   * When the kept passages contain no space themselves, splitting the article
   * text on spaces recovers them: the join adds exactly one space between
   * consecutive passages and nothing else.
   */
  lemma ExtractTextSplitsIntoPassages(passages: seq<Option<string>>)
    requires KeptPassages(passages) != []
    requires forall k :: 0 <= k < |passages| && passages[k].Some? ==> ' ' !in passages[k].value
    ensures Split(ExtractText(passages), ' ') == KeptPassages(passages)
  {
    var kept := KeptPassages(passages);
    forall k | 0 <= k < |kept| ensures ' ' !in kept[k] {
      assert kept[k] in kept;
      var j :| 0 <= j < |passages| && passages[j] == Some(kept[k]);
    }
    SplitJoin(kept, ' ');
  }

  /**
   * The article text for a PMCID: absent when the request fails or the XML
   * does not parse, otherwise the flattened text (possibly empty).
   */
  function FetchArticleText(resp: BiocResponse): (r: Option<string>)
    ensures r.Some? <==> resp.status == HttpOk && resp.passages.Some?
    ensures r.Some? ==> r.value == ExtractText(resp.passages.value)
  {
    if resp.status != HttpOk then None
    else if resp.passages.None? then None
    else Some(ExtractText(resp.passages.value))
  }

  // ---------------------------------------------------------------------------
  // Per-row decision

  /** What happened to one open-access row. */
  datatype Outcome =
    | NoPmcid
    | NoText(pmcid: string)
    | TooManyTokens(pmcid: string, tokens: nat)
    | Accepted(pmcid: string, text: string, tokens: nat)

  /** The `Included` column of the audit log: a closed set of four values. */
  datatype Status = Yes | No | ErrorNoText | ErrorNoPmcid

  function StatusText(s: Status): (t: string)
    ensures t != "" && ',' !in t
  {
    match s
    case Yes => "Yes"
    case No => "No"
    case ErrorNoText => "Error-NoText-or-XMLParseError"
    case ErrorNoPmcid => "Error-NoPMCID"
  }

  /** Reading back the `Included` column. */
  function ParseStatus(t: string): (r: Option<Status>)
    ensures forall s :: r == Some(s) <==> StatusText(s) == t
  {
    if t == "Yes" then Some(Yes)
    else if t == "No" then Some(No)
    else if t == "Error-NoText-or-XMLParseError" then Some(ErrorNoText)
    else if t == "Error-NoPMCID" then Some(ErrorNoPmcid)
    else None
  }

  /** The three remote results for one row, and the branch of the row loop they select. */
  function Classify(row: PubRow, remote: Remote): (o: Outcome)
    ensures var pmcid := FetchPmcid(remote.idConv(row.pmid));
      && (o.NoPmcid? <==> !Truthy(pmcid))
      && (!o.NoPmcid? ==> Truthy(pmcid) && o.pmcid == pmcid.value)
    ensures !o.NoPmcid? ==>
      var text := FetchArticleText(remote.bioc(o.pmcid));
      && (o.NoText? <==> !Truthy(text))
      && (o.Accepted? <==> Truthy(text) && remote.countTokens(text.value) < MaxTokens)
      && (o.TooManyTokens? <==> Truthy(text) && remote.countTokens(text.value) >= MaxTokens)
      && (o.Accepted? ==> o.text == text.value)
      && (o.Accepted? || o.TooManyTokens? ==> o.tokens == remote.countTokens(text.value))
  {
    var pmcid := FetchPmcid(remote.idConv(row.pmid));
    if !Truthy(pmcid) then NoPmcid
    else
      var text := FetchArticleText(remote.bioc(pmcid.value));
      if !Truthy(text) then NoText(pmcid.value)
      else
        var tokens := remote.countTokens(text.value);
        if tokens < MaxTokens then Accepted(pmcid.value, text.value, tokens)
        else TooManyTokens(pmcid.value, tokens)
  }

  // ---------------------------------------------------------------------------
  // Audit log

  const LogHeader := "PMID,PMCID,TokenCount,Included"

  /** One audit row: `pmid,pmcid,token_count,included`. */
  datatype LogRecord = LogRecord(pmid: string, pmcid: string, tokens: nat, status: Status)

  /** The audit record the row loop writes for an outcome. */
  function RecordOf(pmid: string, o: Outcome): (rec: LogRecord)
    ensures rec.pmid == pmid
    ensures rec.status == Yes <==> o.Accepted?
    ensures rec.status == No <==> o.TooManyTokens?
    ensures rec.status == ErrorNoText <==> o.NoText?
    ensures rec.status == ErrorNoPmcid <==> o.NoPmcid?
    ensures rec.pmcid == if o.NoPmcid? then "None" else o.pmcid
    ensures rec.tokens == if o.Accepted? || o.TooManyTokens? then o.tokens else 0
  {
    match o
    case NoPmcid => LogRecord(pmid, "None", 0, ErrorNoPmcid)
    case NoText(pmcid) => LogRecord(pmid, pmcid, 0, ErrorNoText)
    case TooManyTokens(pmcid, tokens) => LogRecord(pmid, pmcid, tokens, No)
    case Accepted(pmcid, _, tokens) => LogRecord(pmid, pmcid, tokens, Yes)
  }

  function RecordFor(row: PubRow, remote: Remote): LogRecord
  {
    RecordOf(row.pmid, Classify(row, remote))
  }

  /** The text of one audit line (without its newline). */
  function RenderLog(rec: LogRecord): string
  {
    Join([rec.pmid, rec.pmcid, NatToString(rec.tokens), StatusText(rec.status)], ',')
  }

  /** Reading one audit line back into a record. */
  function ParseLogLine(line: string): Option<LogRecord>
  {
    var fields := Split(line, ',');
    if |fields| != 4 then None
    else
      match (ParseNat(fields[2]), ParseStatus(fields[3]))
      case (Some(tokens), Some(status)) => Some(LogRecord(fields[0], fields[1], tokens, status))
      case _ => None
  }

  /** Every audit line reads back as the record it was written from, when the identifiers hold no comma. */
  lemma LogLineRoundTrip(rec: LogRecord)
    requires ',' !in rec.pmid && ',' !in rec.pmcid
    ensures ParseLogLine(RenderLog(rec)) == Some(rec)
  {
    var fields := [rec.pmid, rec.pmcid, NatToString(rec.tokens), StatusText(rec.status)];
    forall k | 0 <= k < 4 ensures ',' !in fields[k] {
      if k == 2 {
        assert forall j :: 0 <= j < |fields[2]| ==> IsDigit(fields[2][j]);
      } else if k == 3 {
        assert fields[3] == StatusText(rec.status);
      }
    }
    SplitJoin(fields, ',');
    ParseNatToString(rec.tokens);
  }

  /** An audit line is the four fields separated by commas. */
  lemma RenderLogFields(rec: LogRecord)
    ensures RenderLog(rec) == rec.pmid + [','] + rec.pmcid + [','] + NatToString(rec.tokens) + [','] + StatusText(rec.status)
  {
    var t := NatToString(rec.tokens);
    var st := StatusText(rec.status);
    JoinCons(rec.pmid, [rec.pmcid, t, st], ',');
    JoinCons(rec.pmcid, [t, st], ',');
    JoinCons(t, [st], ',');
  }

  /** The audit line of a row without a PMCID. */
  lemma LogLineNoPmcid(pmid: string)
    ensures RenderLog(RecordOf(pmid, NoPmcid)) == pmid + ",None,0," + "Error-NoPMCID"
  {
    var rec := RecordOf(pmid, NoPmcid);
    assert rec == LogRecord(pmid, "None", 0, ErrorNoPmcid);
    RenderLogFields(rec);
    assert NatToString(0) == "0";
    assert [','] + "None" + [','] + "0" + [','] == ",None,0,";
  }

  /** The audit line of a row whose article text could not be fetched. */
  lemma LogLineNoText(pmid: string, pmcid: string)
    ensures RenderLog(RecordOf(pmid, NoText(pmcid))) == pmid + "," + pmcid + ",0," + "Error-NoText-or-XMLParseError"
  {
    var rec := RecordOf(pmid, NoText(pmcid));
    assert rec == LogRecord(pmid, pmcid, 0, ErrorNoText);
    RenderLogFields(rec);
    assert NatToString(0) == "0";
    assert [','] + "0" + [','] == ",0,";
  }

  /** The audit line of a row whose status is `status` after counting `tokens`. */
  lemma LogLineCounted(pmid: string, pmcid: string, tokens: nat, status: Status)
    requires status == Yes || status == No
    ensures RenderLog(LogRecord(pmid, pmcid, tokens, status))
         == pmid + "," + pmcid + "," + NatToString(tokens) + "," + StatusText(status)
  {
    RenderLogFields(LogRecord(pmid, pmcid, tokens, status));
  }

  /** The audit line of each branch of the row loop, spelled out. */
  lemma LogLineOfOutcome(pmid: string, o: Outcome)
    ensures o.NoPmcid? ==> RenderLog(RecordOf(pmid, o)) == pmid + ",None,0," + "Error-NoPMCID"
    ensures o.NoText? ==> RenderLog(RecordOf(pmid, o)) == pmid + "," + o.pmcid + ",0," + "Error-NoText-or-XMLParseError"
    ensures o.TooManyTokens? ==> RenderLog(RecordOf(pmid, o)) == pmid + "," + o.pmcid + "," + NatToString(o.tokens) + ",No"
    ensures o.Accepted? ==> RenderLog(RecordOf(pmid, o)) == pmid + "," + o.pmcid + "," + NatToString(o.tokens) + ",Yes"
  {
    match o
    case NoPmcid => LogLineNoPmcid(pmid);
    case NoText(pmcid) => LogLineNoText(pmid, pmcid);
    case TooManyTokens(pmcid, tokens) => LogLineCounted(pmid, pmcid, tokens, No);
    case Accepted(pmcid, _, tokens) => LogLineCounted(pmid, pmcid, tokens, Yes);
  }

  // ---------------------------------------------------------------------------
  // Batch requests

  /** The two prompts of a batch request, kept as their ingredients rather than rendered text. */
  datatype Prompt =
    | SystemInstruction
    | UserTask(schemaJson: string, title: string, journal: string, year: string,
               authors: string, pmid: string, pmcid: string, abstractText: string, fullText: string)

  datatype Message = Message(role: string, content: Prompt)

  datatype Body = Body(model: string, messages: seq<Message>)

  /** One line of the batch input file. */
  datatype Entry = Entry(customId: string, httpMethod: string, url: string, body: Body)

  /** The batch request of an accepted row. */
  function BuildEntry(row: PubRow, pmcid: string, text: string, schemaJson: string): (e: Entry)
    ensures e.customId == "pub-" + row.pmid
    ensures e.httpMethod == "POST" && e.url == "/v1/chat/completions"
    ensures e.body.model == "gpt-4o-mini"
    ensures |e.body.messages| == 2
    ensures e.body.messages[0] == Message("system", SystemInstruction)
    ensures e.body.messages[1] == Message("user", UserTask(schemaJson, row.title, row.journal, row.year,
                                                           row.authors, row.pmid, pmcid, row.abstractText, text))
  {
    var user := UserTask(schemaJson, row.title, row.journal, row.year, row.authors,
                         row.pmid, pmcid, row.abstractText, text);
    Entry("pub-" + row.pmid, "POST", "/v1/chat/completions",
          Body("gpt-4o-mini", [Message("system", SystemInstruction), Message("user", user)]))
  }

  // ---------------------------------------------------------------------------
  // The run as a fold over the rows (specification of BuildDataset)

  /** `df[df["Publication Accessibility"] == "Open Access"]`, order kept. */
  function OpenAccessRows(rows: seq<PubRow>): (r: seq<PubRow>)
    ensures |r| <= |rows|
  {
    if rows == [] then []
    else
      var rest := OpenAccessRows(rows[1..]);
      if rows[0].accessibility == OpenAccess then [rows[0]] + rest else rest
  }

  /** The processed rows are exactly the input rows marked "Open Access". */
  lemma {:induction false} OpenAccessRowsMembers(rows: seq<PubRow>)
    ensures forall row :: row in OpenAccessRows(rows) <==> row in rows && row.accessibility == OpenAccess
  {
    if rows != [] {
      assert rows == [rows[0]] + rows[1..];
      OpenAccessRowsMembers(rows[1..]);
    }
  }

  lemma {:induction false} OpenAccessRowsConcat(a: seq<PubRow>, b: seq<PubRow>)
    ensures OpenAccessRows(a + b) == OpenAccessRows(a) + OpenAccessRows(b)
  {
    if a != [] {
      assert (a + b)[1..] == a[1..] + b;
      OpenAccessRowsConcat(a[1..], b);
    } else {
      assert a + b == b;
    }
  }

  /** The audit lines written for the processed rows, in row order. */
  function LogLines(rows: seq<PubRow>, remote: Remote): (lines: seq<string>)
    ensures |lines| == |rows|
  {
    if rows == [] then []
    else LogLines(rows[..|rows| - 1], remote) + [RenderLog(RecordFor(rows[|rows| - 1], remote))]
  }

  /** The batch requests one processed row adds: one when it is accepted, none otherwise. */
  function RowEntries(row: PubRow, remote: Remote, schemaJson: string): (added: seq<Entry>)
    ensures |added| <= 1
    ensures added != [] <==> Classify(row, remote).Accepted?
  {
    var o := Classify(row, remote);
    if o.Accepted? then [BuildEntry(row, o.pmcid, o.text, schemaJson)] else []
  }

  /** The batch requests written for the processed rows, in row order. */
  function Entries(rows: seq<PubRow>, remote: Remote, schemaJson: string): (dataset: seq<Entry>)
    ensures |dataset| <= |rows|
  {
    if rows == [] then []
    else Entries(rows[..|rows| - 1], remote, schemaJson) + RowEntries(rows[|rows| - 1], remote, schemaJson)
  }

  lemma LogLinesSnoc(rows: seq<PubRow>, row: PubRow, remote: Remote)
    ensures LogLines(rows + [row], remote) == LogLines(rows, remote) + [RenderLog(RecordFor(row, remote))]
  {
    assert (rows + [row])[..|rows|] == rows;
  }

  lemma EntriesSnoc(rows: seq<PubRow>, row: PubRow, remote: Remote, schemaJson: string)
    ensures Entries(rows + [row], remote, schemaJson) == Entries(rows, remote, schemaJson) + RowEntries(row, remote, schemaJson)
  {
    assert (rows + [row])[..|rows|] == rows;
  }

  lemma LogLinesPrefix(rows: seq<PubRow>, i: nat, remote: Remote)
    requires i < |rows|
    ensures LogLines(rows[..i + 1], remote) == LogLines(rows[..i], remote) + [RenderLog(RecordFor(rows[i], remote))]
  {
    assert rows[..i + 1][..i] == rows[..i];
  }

  lemma EntriesPrefix(rows: seq<PubRow>, i: nat, remote: Remote, schemaJson: string)
    requires i < |rows|
    ensures Entries(rows[..i + 1], remote, schemaJson) == Entries(rows[..i], remote, schemaJson) + RowEntries(rows[i], remote, schemaJson)
  {
    assert rows[..i + 1][..i] == rows[..i];
  }

  lemma AppendAssoc<T>(a: seq<T>, b: seq<T>, c: seq<T>)
    ensures (a + b) + c == a + (b + c)
  {
  }

  /** The i-th audit line belongs to the i-th processed row. */
  lemma {:induction false} LogLineAt(rows: seq<PubRow>, remote: Remote, i: nat)
    requires i < |rows|
    ensures LogLines(rows, remote)[i] == RenderLog(RecordFor(rows[i], remote))
  {
    if i < |rows| - 1 {
      LogLineAt(rows[..|rows| - 1], remote, i);
    }
  }

  /** The processed rows whose audit status is `Yes`, in row order. */
  function YesRows(rows: seq<PubRow>, remote: Remote): (r: seq<PubRow>)
    ensures forall row :: row in r <==> row in rows && RecordFor(row, remote).status == Yes
  {
    if rows == [] then []
    else
      var rest := YesRows(rows[1..], remote);
      assert rows == [rows[0]] + rows[1..];
      if RecordFor(rows[0], remote).status == Yes then [rows[0]] + rest else rest
  }

  lemma {:induction false} YesRowsSnoc(rows: seq<PubRow>, row: PubRow, remote: Remote)
    ensures YesRows(rows + [row], remote)
         == YesRows(rows, remote) + (if RecordFor(row, remote).status == Yes then [row] else [])
  {
    if rows != [] {
      assert (rows + [row])[1..] == rows[1..] + [row];
      YesRowsSnoc(rows[1..], row, remote);
    } else {
      assert rows + [row] == [row];
    }
  }

  /**
   * The dataset is exactly the batch requests of the `Yes` rows, one per row,
   * in row order.
   */
  lemma {:induction false} EntriesAreYesRows(rows: seq<PubRow>, remote: Remote, schemaJson: string)
    ensures |Entries(rows, remote, schemaJson)| == |YesRows(rows, remote)|
    ensures forall k :: 0 <= k < |YesRows(rows, remote)| ==>
      var row := YesRows(rows, remote)[k];
      var o := Classify(row, remote);
      o.Accepted? && Entries(rows, remote, schemaJson)[k] == BuildEntry(row, o.pmcid, o.text, schemaJson)
  {
    if rows != [] {
      var init := rows[..|rows| - 1];
      var last := rows[|rows| - 1];
      assert rows == init + [last];
      EntriesAreYesRows(init, remote, schemaJson);
      YesRowsSnoc(init, last, remote);
      var yes := YesRows(rows, remote);
      forall k | 0 <= k < |yes| ensures Classify(yes[k], remote).Accepted? {
        assert yes[k] in yes;
      }
    }
  }

  /** A row that is not open access contributes nothing to either output file. */
  lemma NonOpenAccessRowIgnored(before: seq<PubRow>, row: PubRow, after: seq<PubRow>, remote: Remote, schemaJson: string)
    requires row.accessibility != OpenAccess
    ensures OpenAccessRows(before + [row] + after) == OpenAccessRows(before + after)
    ensures LogLines(OpenAccessRows(before + [row] + after), remote) == LogLines(OpenAccessRows(before + after), remote)
    ensures Entries(OpenAccessRows(before + [row] + after), remote, schemaJson)
         == Entries(OpenAccessRows(before + after), remote, schemaJson)
  {
    OpenAccessRowsConcat(before + [row], after);
    OpenAccessRowsConcat(before, [row]);
    OpenAccessRowsConcat(before, after);
    assert OpenAccessRows([row]) == [];
  }

  /** The outputs of a run over a single open-access row. */
  lemma SingleRowRun(row: PubRow, remote: Remote, schemaJson: string)
    requires row.accessibility == OpenAccess
    ensures OpenAccessRows([row]) == [row]
    ensures LogLines([row], remote) == [RenderLog(RecordFor(row, remote))]
    ensures var o := Classify(row, remote);
      Entries([row], remote, schemaJson) == if o.Accepted? then [BuildEntry(row, o.pmcid, o.text, schemaJson)] else []
  {
    assert [row][1..] == [];
    LogLinesSnoc([], row, remote);
    EntriesSnoc([], row, remote, schemaJson);
    assert [] + [row] == [row];
  }

  /** A resolvable PMID whose article has a single non-empty passage under the token limit is accepted with that passage as its text. */
  lemma SinglePassageAccepted(row: PubRow, remote: Remote, pmcid: string, text: string, tokens: nat)
    requires pmcid != "" && text != ""
    requires remote.idConv(row.pmid) == IdConvResponse(HttpOk, [IdRecord(Some(pmcid))])
    requires remote.bioc(pmcid) == BiocResponse(HttpOk, Some([Some(text)]))
    requires remote.countTokens(text) == tokens && tokens < MaxTokens
    ensures Classify(row, remote) == Accepted(pmcid, text, tokens)
  {
    assert ExtractText([Some(text)]) == text by {
      assert KeptPassages([Some(text)]) == [text] by {
        assert [Some(text)][1..] == [];
      }
    }
  }

  /** The outputs of a run over one open-access row that is accepted. */
  lemma AcceptedSingleRowRun(row: PubRow, remote: Remote, pmcid: string, text: string, tokens: nat, schemaJson: string)
    requires row.accessibility == OpenAccess
    requires pmcid != "" && text != ""
    requires remote.idConv(row.pmid) == IdConvResponse(HttpOk, [IdRecord(Some(pmcid))])
    requires remote.bioc(pmcid) == BiocResponse(HttpOk, Some([Some(text)]))
    requires remote.countTokens(text) == tokens && tokens < MaxTokens
    ensures LogLines(OpenAccessRows([row]), remote) == [row.pmid + "," + pmcid + "," + NatToString(tokens) + "," + "Yes"]
    ensures Entries(OpenAccessRows([row]), remote, schemaJson) == [BuildEntry(row, pmcid, text, schemaJson)]
  {
    SingleRowRun(row, remote, schemaJson);
    SinglePassageAccepted(row, remote, pmcid, text, tokens);
    assert RecordFor(row, remote) == LogRecord(row.pmid, pmcid, tokens, Yes);
    LogLineCounted(row.pmid, pmcid, tokens, Yes);
  }

  /**
   * An example run of one row: PMID 12345 resolves to PMC000001, whose text
   * counts 500 tokens, gives the audit line `12345,PMC000001,500,Yes` and one
   * batch request `pub-12345`.
   */
  lemma AcceptedRowExample(row: PubRow, remote: Remote, text: string, schemaJson: string)
    requires row.pmid == "12345" && row.accessibility == OpenAccess
    requires remote.idConv("12345") == IdConvResponse(200, [IdRecord(Some("PMC000001"))])
    requires remote.bioc("PMC000001") == BiocResponse(200, Some([Some(text)]))
    requires text != "" && remote.countTokens(text) == 500
    ensures LogLines(OpenAccessRows([row]), remote) == ["12345,PMC000001,500,Yes"]
    ensures |Entries(OpenAccessRows([row]), remote, schemaJson)| == 1
    ensures Entries(OpenAccessRows([row]), remote, schemaJson)[0].customId == "pub-12345"
  {
    AcceptedSingleRowRun(row, remote, "PMC000001", text, 500, schemaJson);
    FiveHundredToString();
    AcceptedRowText();
  }

  lemma AcceptedRowText()
    ensures "12345" + "," + "PMC000001" + "," + "500" + "," + "Yes" == "12345,PMC000001,500,Yes"
    ensures "pub-" + "12345" == "pub-12345"
  {
  }

  lemma FiveHundredToString()
    ensures NatToString(500) == "500"
  {
    assert NatToString(5) == "5";
    assert NatToString(50) == "50";
  }

  /** An unresolvable PMID (here 99999) logs `99999,None,0,Error-NoPMCID` and adds no batch request. */
  lemma NoPmcidRowExample(row: PubRow, remote: Remote, schemaJson: string)
    requires row.pmid == "99999" && row.accessibility == OpenAccess
    requires remote.idConv("99999").records == []
    ensures LogLines(OpenAccessRows([row]), remote) == ["99999,None,0,Error-NoPMCID"]
    ensures Entries(OpenAccessRows([row]), remote, schemaJson) == []
  {
    NoPmcidLineText();
    SingleRowRun(row, remote, schemaJson);
    var o := Classify(row, remote);
    assert o == NoPmcid;
    LogLineNoPmcid("99999");
  }

  lemma NoPmcidLineText()
    ensures "99999" + ",None,0," + "Error-NoPMCID" == "99999,None,0,Error-NoPMCID"
  {
  }

  // ---------------------------------------------------------------------------
  // main

  /**
   * One pass of the row loop of `main`: resolve the PMID, fetch the text,
   * count its tokens, and return the batch requests to append (at most one)
   * and the audit line.
   */
  method ProcessRow(row: PubRow, remote: Remote, schemaJson: string) returns (added: seq<Entry>, line: string)
    ensures line == RenderLog(RecordFor(row, remote))
    ensures added == RowEntries(row, remote, schemaJson)
  {
    var pmid := row.pmid;
    ghost var o := Classify(row, remote);
    added := [];
    var pmcid := FetchPmcid(remote.idConv(pmid));
    if Truthy(pmcid) {
      var text := FetchArticleText(remote.bioc(pmcid.value));
      if Truthy(text) {
        var tokens := remote.countTokens(text.value);
        var included := No;
        assert o == if tokens < MaxTokens then Accepted(pmcid.value, text.value, tokens)
                     else TooManyTokens(pmcid.value, tokens);
        if tokens < MaxTokens {
          added := [BuildEntry(row, pmcid.value, text.value, schemaJson)];
          included := Yes;
        }
        line := RenderLog(LogRecord(pmid, pmcid.value, tokens, included));
      } else {
        assert o == NoText(pmcid.value);
        line := RenderLog(LogRecord(pmid, pmcid.value, 0, ErrorNoText));
      }
    } else {
      assert o == NoPmcid;
      line := RenderLog(LogRecord(pmid, "None", 0, ErrorNoPmcid));
    }
  }

  /**
   * The row loop of `main`: truncate both outputs, write the log header, then
   * for every open-access row resolve, fetch, count, and append.
   */
  method BuildDataset(rows: seq<PubRow>, remote: Remote, schemaJson: string)
    returns (dataset: seq<Entry>, log: seq<string>)
    ensures |log| == 1 + |OpenAccessRows(rows)| && log[0] == LogHeader
    ensures log[1..] == LogLines(OpenAccessRows(rows), remote)
    ensures dataset == Entries(OpenAccessRows(rows), remote, schemaJson)
  {
    var open := OpenAccessRows(rows);
    log := [LogHeader];
    dataset := [];
    for i := 0 to |open|
      invariant log == [LogHeader] + LogLines(open[..i], remote)
      invariant dataset == Entries(open[..i], remote, schemaJson)
    {
      var added, line := ProcessRow(open[i], remote, schemaJson);
      LogLinesPrefix(open, i, remote);
      EntriesPrefix(open, i, remote, schemaJson);
      AppendAssoc([LogHeader], LogLines(open[..i], remote), [line]);
      dataset := dataset + added;
      log := log + [line];
    }
    assert open[..|open|] == open;
  }
}
