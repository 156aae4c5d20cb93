/** The record-building loop of `get_bills`: from the page's "views-row"
    blocks to the list of bill records, or to the endpoint's error text when a
    block's link has no `href`. Loading the listing page in a browser and
    parsing it are outside the model; the blocks arrive already located. */
module Bills {
  import opened PyBuiltins
  import Summary

  /** A block's `div.views-field-title-field`: the text of its `h3`, if it has
      one, and its `a` element, if it has one, by that element's `href`
      attribute, which may itself be absent. */
  datatype TitleDiv = TitleDiv(heading: Option<string>, anchor: Option<Option<string>>)

  /** One `div.views-row`: its title container, if any, and the text of its
      `div.views-field-field-bill-status`, if any. */
  datatype Block = Block(titleDiv: Option<TitleDiv>, statusText: Option<string>)

  /** One entry of the `bills` list. */
  datatype BillRecord = BillRecord(index: nat, title: string, link: string, status: string, summary: string)

  /** What the endpoint answers: the bills, or the text of its error body. */
  datatype Outcome = Bills(records: seq<BillRecord>) | Failed(error: string)

  /** How many blocks are looked at; the rest are dropped. */
  const RowLimit: nat := 50

  const Origin := "https://prsindia.org"
  const NotAvailable := "N/A"

  /** The error body when `title_div.find('a')['href']` raises `KeyError('href')`. */
  const MissingHrefError := "An error occurred: 'href'"

  /** The blocks that are looked at: at most the first 50. */
  function Considered(blocks: seq<Block>): nat
  {
    if |blocks| < RowLimit then |blocks| else RowLimit
  }

  /** The block has an anchor in its title container, and that anchor has no `href`. */
  predicate LacksHref(b: Block)
  {
    b.titleDiv.Some? && b.titleDiv.value.anchor == Some(None)
  }

  /** The block links somewhere: its anchor has a non-empty `href`. */
  predicate HasLink(b: Block)
  {
    && b.titleDiv.Some? && b.titleDiv.value.anchor.Some?
    && b.titleDiv.value.anchor.value.Some? && b.titleDiv.value.anchor.value.value != ""
  }

  function Href(b: Block): string
    requires HasLink(b)
  {
    b.titleDiv.value.anchor.value.value
  }

  // ---------------------------------------------------------------------------
  // The reference definition, one block at a time
  // ---------------------------------------------------------------------------

  /** What the loop body does with one block. */
  datatype Step = Skip | Emit(record: BillRecord) | Raise

  /** The loop body for the block at 1-based position `index`. */
  function RowStep(index: nat, row: Block, summarize: string -> string): Step
  {
    if row.titleDiv.None? then Skip
    else if LacksHref(row) then Raise
    else
      var heading := row.titleDiv.value.heading;
      var title := if heading.Some? then heading.value else NotAvailable;
      var link := if HasLink(row) then Origin + Href(row) else NotAvailable;
      var status := if row.statusText.Some? then row.statusText.value else NotAvailable;
      var summary := if HasLink(row) then summarize(link) else NotAvailable;
      Emit(BillRecord(index, title, link, status, summary))
  }

  /** An absolute link is never mistaken for the "N/A" sentinel. */
  lemma AbsoluteLinkIsNotSentinel(href: string)
    ensures Origin + href != NotAvailable
  {
    assert |Origin + href| > |NotAvailable|;
  }

  /** The outcome after one more block: a failure stays, a skip changes
      nothing, a record is appended, a raise fails the request. */
  function Advance(o: Outcome, step: Step): Outcome
  {
    match o
    case Failed(_) => o
    case Bills(rs) =>
      match step
      case Skip => o
      case Emit(r) => Bills(rs + [r])
      case Raise => Failed(MissingHrefError)
  }

  /** The outcome after the loop has been through `rows[..k]`. */
  function Assemble(rows: seq<Block>, k: nat, summarize: string -> string): Outcome
    requires k <= |rows|
  {
    if k == 0 then Bills([])
    else Advance(Assemble(rows, k - 1, summarize), RowStep(k, rows[k - 1], summarize))
  }

  /** What `get_bills` answers for a page whose blocks are `blocks`, when
      `extract_content` turns each detail URL into the text `summarize` gives. */
  function ExtractBills(blocks: seq<Block>, summarize: string -> string): Outcome
  {
    var rows := Take(blocks, RowLimit);
    Assemble(rows, |rows|, summarize)
  }

  // ---------------------------------------------------------------------------
  // The loop itself
  // ---------------------------------------------------------------------------

  /** The body of `get_bills` from `bill_rows` on: enumerate the first 50
      blocks from 1, skip those without a title container, and append one
      record per remaining block; a link anchor without `href` aborts the whole
      request. */
  method GetBills(blocks: seq<Block>, summarize: string -> string) returns (outcome: Outcome)
    ensures outcome == ExtractBills(blocks, summarize)
  {
    var rows := Take(blocks, RowLimit);
    var bills: seq<BillRecord> := [];
    for i := 0 to |rows|
      invariant Assemble(rows, i, summarize) == Bills(bills)
    {
      var index := i + 1;
      var row := rows[i];
      assert Assemble(rows, index, summarize) == Advance(Bills(bills), RowStep(index, row, summarize));
      if row.titleDiv.None? {
        continue;
      }
      var titleDiv := row.titleDiv.value;
      var title := if titleDiv.heading.Some? then titleDiv.heading.value else NotAvailable;
      if titleDiv.anchor == Some(None) {
        FailureIsFinal(rows, i + 1, |rows|, summarize);
        return Failed(MissingHrefError);
      }
      var link := if titleDiv.anchor.Some? then titleDiv.anchor.value else None;
      var fullLink := if link.Some? && link.value != "" then Origin + link.value else NotAvailable;
      var status := if row.statusText.Some? then row.statusText.value else NotAvailable;
      if link.Some? && link.value != "" {
        AbsoluteLinkIsNotSentinel(link.value);
      }
      var content := if fullLink != NotAvailable then summarize(fullLink) else NotAvailable;
      var record := BillRecord(index, title, fullLink, status, content);
      assert RowStep(index, row, summarize) == Emit(record);
      bills := bills + [record];
    }
    outcome := Bills(bills);
  }

  /** Once a block has raised, later blocks change nothing. */
  lemma {:induction false} FailureIsFinal(rows: seq<Block>, j: nat, k: nat, summarize: string -> string)
    requires j <= k <= |rows|
    requires Assemble(rows, j, summarize).Failed?
    ensures Assemble(rows, k, summarize) == Assemble(rows, j, summarize)
    decreases k
  {
    if k > j {
      FailureIsFinal(rows, j, k - 1, summarize);
    }
  }

  // ---------------------------------------------------------------------------
  // What the records say about the blocks
  // ---------------------------------------------------------------------------

  /** `r` is the record for the titled block `b` at 1-based position `index`:
      the heading text or "N/A", the status text or "N/A", and either the
      absolute link with its summary or "N/A" for both. */
  ghost predicate Describes(r: BillRecord, index: nat, b: Block, summarize: string -> string)
  {
    && b.titleDiv.Some?
    && r.index == index
    && (b.titleDiv.value.heading.Some? ==> r.title == b.titleDiv.value.heading.value)
    && (b.titleDiv.value.heading.None? ==> r.title == NotAvailable)
    && (b.statusText.Some? ==> r.status == b.statusText.value)
    && (b.statusText.None? ==> r.status == NotAvailable)
    && (HasLink(b) ==> r.link == Origin + Href(b) && r.summary == summarize(r.link))
    && (!HasLink(b) ==> r.link == NotAvailable && r.summary == NotAvailable)
  }

  /** One block's contribution, by the kind of block it is. */
  lemma RowStepCases(index: nat, row: Block, summarize: string -> string)
    ensures row.titleDiv.None? ==> RowStep(index, row, summarize) == Skip
    ensures LacksHref(row) ==> RowStep(index, row, summarize) == Raise
    ensures row.titleDiv.Some? && !LacksHref(row) ==>
      RowStep(index, row, summarize).Emit? && Describes(RowStep(index, row, summarize).record, index, row, summarize)
  {
  }

  /** The loop fails exactly when one of the blocks it went through has a link
      anchor without `href`, and then with the `KeyError` message. */
  lemma {:induction false} AssembleFails(rows: seq<Block>, k: nat, summarize: string -> string)
    requires k <= |rows|
    ensures Assemble(rows, k, summarize).Failed? <==> exists i :: 0 <= i < k && LacksHref(rows[i])
    ensures Assemble(rows, k, summarize).Failed? ==> Assemble(rows, k, summarize).error == MissingHrefError
  {
    if k > 0 {
      var prev := Assemble(rows, k - 1, summarize);
      var o := Assemble(rows, k, summarize);
      AssembleFails(rows, k - 1, summarize);
      RowStepCases(k, rows[k - 1], summarize);
      if prev.Failed? {
        var i :| 0 <= i < k - 1 && LacksHref(rows[i]);
        assert o == prev;
      } else if LacksHref(rows[k - 1]) {
        assert o == Failed(MissingHrefError);
      } else {
        assert o.Bills?;
        forall i | 0 <= i < k ensures !LacksHref(rows[i]) {
          if i < k - 1 {
            assert !(0 <= i < k - 1 && LacksHref(rows[i]));
          }
        }
      }
    }
  }

  /** Each record is the one for the titled block at its index, among `rows[..k]`. */
  ghost predicate RecordsDescribe(rs: seq<BillRecord>, rows: seq<Block>, k: nat, summarize: string -> string)
    requires k <= |rows|
  {
    forall j :: 0 <= j < |rs| ==>
      1 <= rs[j].index <= k && Describes(rs[j], rs[j].index, rows[rs[j].index - 1], summarize)
  }

  lemma DescribesExtends(rs: seq<BillRecord>, rows: seq<Block>, k: nat, summarize: string -> string)
    requires 0 < k <= |rows|
    requires RecordsDescribe(rs, rows, k - 1, summarize)
    ensures RecordsDescribe(rs, rows, k, summarize)
  {
  }

  lemma DescribesAppend(rs: seq<BillRecord>, r: BillRecord, rows: seq<Block>, k: nat, summarize: string -> string)
    requires 0 < k <= |rows|
    requires RecordsDescribe(rs, rows, k, summarize)
    requires Describes(r, k, rows[k - 1], summarize)
    ensures RecordsDescribe(rs + [r], rows, k, summarize)
  {
    forall j | 0 <= j < |rs| + 1
      ensures 1 <= (rs + [r])[j].index <= k
      ensures Describes((rs + [r])[j], (rs + [r])[j].index, rows[(rs + [r])[j].index - 1], summarize)
    {
      if j < |rs| {
        assert (rs + [r])[j] == rs[j];
      }
    }
  }

  /** The indices of the records, in order. */
  function Indices(rs: seq<BillRecord>): (ns: seq<nat>)
    ensures |ns| == |rs|
    ensures forall j :: 0 <= j < |rs| ==> ns[j] == rs[j].index
  {
    seq(|rs|, j requires 0 <= j < |rs| => rs[j].index)
  }

  /** The 1-based positions, among `rows[..k]`, of the blocks that have a
      title container: independently of the loop, the indices it should emit. */
  function TitledPositions(rows: seq<Block>, k: nat): (ps: seq<nat>)
    requires k <= |rows|
    ensures |ps| <= k
    ensures forall j :: 0 <= j < |ps| ==> 1 <= ps[j] <= k
  {
    if k == 0 then []
    else TitledPositions(rows, k - 1) + (if rows[k - 1].titleDiv.Some? then [k] else [])
  }

  predicate StrictlyIncreasing(ns: seq<nat>)
  {
    forall j1, j2 :: 0 <= j1 < j2 < |ns| ==> ns[j1] < ns[j2]
  }

  /** The titled positions strictly increase. */
  lemma {:induction false} TitledPositionsIncrease(rows: seq<Block>, k: nat)
    requires k <= |rows|
    ensures StrictlyIncreasing(TitledPositions(rows, k))
  {
    if k > 0 {
      TitledPositionsIncrease(rows, k - 1);
      var before := TitledPositions(rows, k - 1);
      var ps := TitledPositions(rows, k);
      forall j1, j2 | 0 <= j1 < j2 < |ps| ensures ps[j1] < ps[j2] {
        assert ps[j1] == before[j1];
        if j2 < |before| {
          assert ps[j2] == before[j2];
          assert before[j1] < before[j2];
        } else {
          assert ps == before + [k];
          assert before[j1] <= k - 1;
        }
      }
    }
  }

  /** Every titled block is among the titled positions. */
  lemma {:induction false} TitledPositionsCover(rows: seq<Block>, k: nat)
    requires k <= |rows|
    ensures forall i :: 0 <= i < k && rows[i].titleDiv.Some? ==> i + 1 in TitledPositions(rows, k)
  {
    if k > 0 {
      TitledPositionsCover(rows, k - 1);
      var before := TitledPositions(rows, k - 1);
      var ps := TitledPositions(rows, k);
      assert forall p :: p in before ==> p in ps;
      if rows[k - 1].titleDiv.Some? {
        assert ps[|ps| - 1] == k;
      }
    }
  }

  /** After the loop has been through `rows[..k]` without failing, the
      records carry exactly the titled positions as indices, in order. */
  lemma {:induction false} AssembleIndices(rows: seq<Block>, k: nat, summarize: string -> string)
    requires k <= |rows|
    requires Assemble(rows, k, summarize).Bills?
    ensures Indices(Assemble(rows, k, summarize).records) == TitledPositions(rows, k)
  {
    if k > 0 {
      var prev := Assemble(rows, k - 1, summarize);
      var step := RowStep(k, rows[k - 1], summarize);
      assert Assemble(rows, k, summarize) == Advance(prev, step);
      AssembleIndices(rows, k - 1, summarize);
      RowStepCases(k, rows[k - 1], summarize);
      if step.Emit? {
        var rs := prev.records + [step.record];
        assert Indices(rs) == Indices(prev.records) + [k];
      }
    }
  }

  /** After the loop has been through `rows[..k]` without failing, each
      record describes the block at its index. */
  lemma {:induction false} AssembleDescribes(rows: seq<Block>, k: nat, summarize: string -> string)
    requires k <= |rows|
    requires Assemble(rows, k, summarize).Bills?
    ensures RecordsDescribe(Assemble(rows, k, summarize).records, rows, k, summarize)
  {
    if k > 0 {
      var prev := Assemble(rows, k - 1, summarize);
      var step := RowStep(k, rows[k - 1], summarize);
      assert Assemble(rows, k, summarize) == Advance(prev, step);
      AssembleDescribes(rows, k - 1, summarize);
      RowStepCases(k, rows[k - 1], summarize);
      DescribesExtends(prev.records, rows, k, summarize);
      if step.Emit? {
        DescribesAppend(prev.records, step.record, rows, k, summarize);
      }
    }
  }

  // ---------------------------------------------------------------------------
  // The properties of get_bills
  // ---------------------------------------------------------------------------

  /** The request fails, with the `KeyError` message, exactly when one of the
      first 50 blocks has a title container whose anchor lacks `href`. Whatever
      the summaries say, they never make it fail. */
  lemma BillsFailOnlyOnMissingHref(blocks: seq<Block>, summarize: string -> string)
    ensures ExtractBills(blocks, summarize).Failed? <==>
      exists i :: 0 <= i < Considered(blocks) && LacksHref(blocks[i])
    ensures ExtractBills(blocks, summarize).Failed? ==>
      ExtractBills(blocks, summarize).error == MissingHrefError
  {
    var rows := Take(blocks, RowLimit);
    AssembleFails(rows, |rows|, summarize);
    assert forall i :: 0 <= i < |rows| ==> rows[i] == blocks[i];
  }

  /** The records' indices are exactly the 1-based positions of the titled
      blocks among the first 50, in order, and each record describes the
      block at its index. */
  lemma BillsFollowBlocks(blocks: seq<Block>, summarize: string -> string)
    requires ExtractBills(blocks, summarize).Bills?
    ensures var rs := ExtractBills(blocks, summarize).records;
      && Indices(rs) == TitledPositions(blocks, Considered(blocks))
      && RecordsDescribe(rs, blocks, Considered(blocks), summarize)
  {
    var rows := Take(blocks, RowLimit);
    AssembleIndices(rows, |rows|, summarize);
    AssembleDescribes(rows, |rows|, summarize);
    SamePrefixSamePositions(rows, blocks, Considered(blocks));
    SamePrefixSameDescriptions(rows, blocks, Considered(blocks), summarize);
  }

  lemma {:induction false} SamePrefixSamePositions(rows: seq<Block>, blocks: seq<Block>, k: nat)
    requires k <= |rows| && k <= |blocks|
    requires forall i :: 0 <= i < k ==> rows[i] == blocks[i]
    ensures TitledPositions(rows, k) == TitledPositions(blocks, k)
  {
    if k > 0 {
      SamePrefixSamePositions(rows, blocks, k - 1);
    }
  }

  lemma SamePrefixSameDescriptions(rows: seq<Block>, blocks: seq<Block>, k: nat, summarize: string -> string)
    requires k <= |rows| && k <= |blocks|
    requires forall i :: 0 <= i < k ==> rows[i] == blocks[i]
    ensures forall rs :: RecordsDescribe(rs, rows, k, summarize) ==> RecordsDescribe(rs, blocks, k, summarize)
  {
  }

  /** At most 50 records; indices lie in 1..50 and strictly increase; every
      record's index is the position of a titled block, and every titled block
      among the first 50 has a record carrying its position, so the gaps are
      exactly the skipped blocks. */
  lemma BillsAreBoundedAndOrdered(blocks: seq<Block>, summarize: string -> string)
    requires ExtractBills(blocks, summarize).Bills?
    ensures var rs := ExtractBills(blocks, summarize).records;
      && |rs| <= RowLimit
      && (forall j :: 0 <= j < |rs| ==> 1 <= rs[j].index <= Considered(blocks))
      && (forall j1, j2 :: 0 <= j1 < j2 < |rs| ==> rs[j1].index < rs[j2].index)
      && (forall j :: 0 <= j < |rs| ==> blocks[rs[j].index - 1].titleDiv.Some?)
      && (forall i :: 0 <= i < Considered(blocks) && blocks[i].titleDiv.Some? ==> i + 1 in Indices(rs))
  {
    BillsFollowBlocks(blocks, summarize);
    var rows := Take(blocks, RowLimit);
    AssembleIndices(rows, |rows|, summarize);
    SamePrefixSamePositions(rows, blocks, Considered(blocks));
    TitledPositionsIncrease(blocks, Considered(blocks));
    TitledPositionsCover(blocks, Considered(blocks));
    var rs := ExtractBills(blocks, summarize).records;
    assert |rs| == |Indices(rs)|;
    forall j1, j2 | 0 <= j1 < j2 < |rs| ensures rs[j1].index < rs[j2].index {
      assert Indices(rs)[j1] == rs[j1].index && Indices(rs)[j2] == rs[j2].index;
    }
  }

  /** Blocks past the 50th never matter, however many there are. */
  lemma LaterBlocksIgnored(blocks: seq<Block>, extra: seq<Block>, summarize: string -> string)
    requires |blocks| >= RowLimit
    ensures ExtractBills(blocks + extra, summarize) == ExtractBills(blocks, summarize)
  {
    assert Take(blocks + extra, RowLimit) == Take(blocks, RowLimit);
  }

  /** The summarizer is consulted only for the absolute links of blocks among
      the first 50 that have a non-empty `href`: two summarizers that agree on
      those links give the same answer. */
  lemma SummarizerOnlySeesLinks(blocks: seq<Block>, f: string -> string, g: string -> string)
    requires forall i :: 0 <= i < Considered(blocks) && HasLink(blocks[i]) ==>
      f(Origin + Href(blocks[i])) == g(Origin + Href(blocks[i]))
    ensures ExtractBills(blocks, f) == ExtractBills(blocks, g)
  {
    var rows := Take(blocks, RowLimit);
    AssembleAgrees(rows, |rows|, f, g);
  }

  lemma {:induction false} AssembleAgrees(rows: seq<Block>, k: nat, f: string -> string, g: string -> string)
    requires k <= |rows|
    requires forall i :: 0 <= i < k && HasLink(rows[i]) ==> f(Origin + Href(rows[i])) == g(Origin + Href(rows[i]))
    ensures Assemble(rows, k, f) == Assemble(rows, k, g)
  {
    if k > 0 {
      AssembleAgrees(rows, k - 1, f, g);
      RowStepCases(k, rows[k - 1], f);
      RowStepCases(k, rows[k - 1], g);
    }
  }

  /** A block without a title container is skipped yet uses up its position:
      titled blocks around it get indices 1 and 3, not 1 and 2. */
  lemma SkippedBlockKeepsItsIndex(a: Block, gap: Block, c: Block, summarize: string -> string)
    requires a.titleDiv.Some? && !LacksHref(a)
    requires gap.titleDiv.None?
    requires c.titleDiv.Some? && !LacksHref(c)
    ensures var o := ExtractBills([a, gap, c], summarize);
      o.Bills? && |o.records| == 2 && o.records[0].index == 1 && o.records[1].index == 3
  {
    var blocks := [a, gap, c];
    assert Take(blocks, RowLimit) == blocks;
    BillsFailOnlyOnMissingHref(blocks, summarize);
    AssembleIndices(blocks, 3, summarize);
    assert TitledPositions(blocks, 1) == [1];
    assert TitledPositions(blocks, 2) == [1];
    assert TitledPositions(blocks, 3) == [1, 3];
    var rs := ExtractBills(blocks, summarize).records;
    assert Indices(rs) == [1, 3];
  }

  /** The summarizer `get_bills` calls: `extract_content`, over whatever the
      network answers for each detail URL. */
  function ExtractContentOver(fetch: string -> Summary.FetchOutcome): string -> string
  {
    url => Summary.ExtractContent(fetch(url))
  }

  /** Detail pages fail soft: whatever each detail fetch does, even raise,
      the request still succeeds when no considered block lacks its `href`,
      and a linked record's summary is `extract_content`'s text for its link. */
  lemma DetailFailuresStayInRecords(blocks: seq<Block>, fetch: string -> Summary.FetchOutcome)
    requires forall i :: 0 <= i < Considered(blocks) ==> !LacksHref(blocks[i])
    ensures var o := ExtractBills(blocks, ExtractContentOver(fetch));
      && o.Bills?
      && forall j :: 0 <= j < |o.records| && o.records[j].link != NotAvailable ==>
           o.records[j].summary == Summary.ExtractContent(fetch(o.records[j].link))
  {
    var summarize := ExtractContentOver(fetch);
    BillsFailOnlyOnMissingHref(blocks, summarize);
    BillsFollowBlocks(blocks, summarize);
  }
}
