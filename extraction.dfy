/**
 * Reading the fund-switch request pages: keep the pages whose "Update PDF"
 * checkbox is ticked and flatten each into a record keyed by page id.
 */
module Extraction {
  import opened Wrappers
  import opened RichText

  /**
   * A page of the fund-switch database, with the properties the extraction reads.
   * A rich-text property that is absent is an empty list here (both read as "no text").
   * `filenameTitle` and `remarksTitle` are `None` when the property has no title list.
   * `clientRollup` lists, per element of the "Client Name" rollup, its relation ids.
   */
  datatype Page = Page(
    id: string,
    updatePdf: bool,
    status: string,
    policyRelation: seq<string>,
    clientRollup: seq<seq<string>>,
    nric: Option<string>,
    switchOutFundName: seq<TextRun>,
    switchOutAllocation: seq<TextRun>,
    switchInFundName: seq<TextRun>,
    switchInAllocation: seq<TextRun>,
    premiumRedirection: seq<TextRun>,
    premiumRedirectionNewAllocation: seq<TextRun>,
    filenameTitle: Option<seq<TextRun>>,
    remarksTitle: Option<seq<TextRun>>,
    url: string)

  /** The flat record the extraction stores for a kept page. */
  datatype Record = Record(
    updatePdf: bool,
    status: string,
    policyId: string,
    clientId: string,
    nric: Option<string>,
    switchOutFundName: Option<string>,
    switchOutAllocation: Option<string>,
    switchInFundName: Option<string>,
    switchInAllocation: Option<string>,
    premiumRedirection: Option<string>,
    premiumRedirectionNewAllocation: Option<string>,
    remarks: Option<string>,
    url: string)

  /** The `IndexError` a kept page can raise, with the page it was raised on. */
  datatype ExtractError =
    | NoPolicyRelation(pageId: string)
    | NoClientRollupItem(pageId: string)
    | NoClientRelation(pageId: string)
    | EmptyRemarksTitle(pageId: string)

  /** A rich-text field: no value when the list is empty, else the first run's content. */
  function FirstText(runs: seq<TextRun>): (r: Option<string>)
    ensures runs == [] ==> r == None
    ensures runs != [] ==> r == runs[0].content
  {
    if runs == [] then None else runs[0].content
  }

  /**
   * The "Remarks" value. Emptiness is tested on the "Filename" title (a missing
   * title list counts as non-empty), but the value is read from the "Remarks"
   * title: absent gives no value, present and empty raises.
   */
  function RemarksOf(p: Page): (r: Result<Option<string>, ExtractError>)
    ensures p.filenameTitle == Some([]) ==> r == Ok(None)
    ensures r.Err? <==> p.filenameTitle != Some([]) && p.remarksTitle == Some([])
    ensures r.Err? ==> r.error == EmptyRemarksTitle(p.id)
    ensures p.filenameTitle != Some([]) && p.remarksTitle.Some? && p.remarksTitle.value != []
            ==> r == Ok(p.remarksTitle.value[0].content)
    ensures p.remarksTitle.None? ==> r == Ok(None)
  {
    if p.filenameTitle == Some([]) then Ok(None)
    else match p.remarksTitle
      case None => Ok(None)
      case Some(runs) => if runs == [] then Err(EmptyRemarksTitle(p.id)) else Ok(runs[0].content)
  }

  /** Once "Filename" is non-empty, its text has no influence on "Remarks". */
  lemma RemarksIgnoresFilenameText(p: Page, title: seq<TextRun>)
    requires p.filenameTitle != Some([]) && title != []
    ensures RemarksOf(p.(filenameTitle := Some(title))) == RemarksOf(p)
  {
  }

  /**
   * Flattening one kept page. The hard `[0]` indexing of the policy relation,
   * of the client rollup and of its first element's relation fails on an empty list.
   */
  function Flatten(p: Page): (r: Result<Record, ExtractError>)
    ensures r.Ok? <==> && p.policyRelation != []
                       && p.clientRollup != [] && p.clientRollup[0] != []
                       && RemarksOf(p).Ok?
    ensures p.policyRelation == [] ==> r == Err(NoPolicyRelation(p.id))
    ensures p.policyRelation != [] && p.clientRollup == [] ==> r == Err(NoClientRollupItem(p.id))
    ensures p.policyRelation != [] && p.clientRollup != [] && p.clientRollup[0] == []
            ==> r == Err(NoClientRelation(p.id))
    ensures p.policyRelation != [] && p.clientRollup != [] && p.clientRollup[0] != [] && RemarksOf(p).Err?
            ==> r == Err(EmptyRemarksTitle(p.id))
    ensures r.Ok? ==> var rec := r.value;
      && rec.updatePdf == p.updatePdf && rec.status == p.status && rec.url == p.url
      && rec.policyId == p.policyRelation[0]
      && rec.clientId == p.clientRollup[0][0]
      && rec.nric == p.nric
      && rec.switchOutFundName == FirstText(p.switchOutFundName)
      && rec.switchOutAllocation == FirstText(p.switchOutAllocation)
      && rec.switchInFundName == FirstText(p.switchInFundName)
      && rec.switchInAllocation == FirstText(p.switchInAllocation)
      && rec.premiumRedirection == FirstText(p.premiumRedirection)
      && rec.premiumRedirectionNewAllocation == FirstText(p.premiumRedirectionNewAllocation)
      && rec.remarks == RemarksOf(p).value
  {
    if p.policyRelation == [] then Err(NoPolicyRelation(p.id))
    else if p.clientRollup == [] then Err(NoClientRollupItem(p.id))
    else if p.clientRollup[0] == [] then Err(NoClientRelation(p.id))
    else match RemarksOf(p)
      case Err(e) => Err(e)
      case Ok(remarks) =>
        Ok(Record(
          p.updatePdf, p.status, p.policyRelation[0], p.clientRollup[0][0], p.nric,
          FirstText(p.switchOutFundName), FirstText(p.switchOutAllocation),
          FirstText(p.switchInFundName), FirstText(p.switchInAllocation),
          FirstText(p.premiumRedirection), FirstText(p.premiumRedirectionNewAllocation),
          remarks, p.url))
  }

  /**
   * The dictionary after the loop has visited `pages` in order: unticked pages are
   * skipped, a kept page overwrites any earlier entry with its id, and the first
   * kept page that cannot be flattened stops everything.
   */
  function ExtractAll(pages: seq<Page>): Result<map<string, Record>, ExtractError>
    decreases |pages|
  {
    if pages == [] then Ok(map[])
    else
      var prev := ExtractAll(pages[..|pages| - 1]);
      var p := pages[|pages| - 1];
      if prev.Err? || !p.updatePdf then prev
      else match Flatten(p)
        case Err(e) => Err(e)
        case Ok(rec) => Ok(prev.value[p.id := rec])
  }

  /** Once a prefix of the pages has failed, the whole extraction fails the same way. */
  lemma {:induction false} ExtractErrSticks(pages: seq<Page>, n: nat)
    requires n <= |pages| && ExtractAll(pages[..n]).Err?
    ensures ExtractAll(pages) == ExtractAll(pages[..n])
    decreases |pages|
  {
    if n < |pages| {
      var init := pages[..|pages| - 1];
      assert init[..n] == pages[..n];
      ExtractErrSticks(init, n);
    } else {
      assert pages[..n] == pages;
    }
  }

  /** The loop of `extracting_fundswitch_database_page`. */
  method ExtractFundswitchPages(pages: seq<Page>) returns (r: Result<map<string, Record>, ExtractError>)
    ensures r == ExtractAll(pages)
  {
    var pageDict: map<string, Record> := map[];
    for i := 0 to |pages|
      invariant ExtractAll(pages[..i]) == Ok(pageDict)
    {
      assert pages[..i + 1][..i] == pages[..i];
      var page := pages[i];
      if page.updatePdf {
        var record := Flatten(page);
        if record.Err? {
          ExtractErrSticks(pages, i + 1);
          return Err(record.error);
        }
        pageDict := pageDict[page.id := record.value];
      }
    }
    assert pages[..|pages|] == pages;
    return Ok(pageDict);
  }

  /** Some page with this id has its "Update PDF" box ticked. */
  predicate Kept(pages: seq<Page>, id: string)
  {
    exists i :: 0 <= i < |pages| && pages[i].updatePdf && pages[i].id == id
  }

  /** A page is in the result if and only if it is ticked; the result is keyed by page id. */
  lemma {:induction false} ExtractKeptIff(pages: seq<Page>, id: string)
    requires ExtractAll(pages).Ok?
    ensures id in ExtractAll(pages).value <==> Kept(pages, id)
    decreases |pages|
  {
    if pages != [] {
      var init := pages[..|pages| - 1];
      ExtractKeptIff(init, id);
      if Kept(init, id) {
        var i :| 0 <= i < |init| && init[i].updatePdf && init[i].id == id;
        assert pages[i] == init[i];
      }
      if Kept(pages, id) && !Kept(init, id) {
        var i :| 0 <= i < |pages| && pages[i].updatePdf && pages[i].id == id;
        assert i == |pages| - 1;
      }
    }
  }

  /** The record stored for a ticked page that no later ticked page shares an id with. */
  lemma {:induction false} ExtractLastWins(pages: seq<Page>, i: nat)
    requires ExtractAll(pages).Ok?
    requires i < |pages| && pages[i].updatePdf
    requires forall j :: i < j < |pages| && pages[j].updatePdf ==> pages[j].id != pages[i].id
    ensures Flatten(pages[i]).Ok? && pages[i].id in ExtractAll(pages).value
    ensures ExtractAll(pages).value[pages[i].id] == Flatten(pages[i]).value
    decreases |pages|
  {
    var init := pages[..|pages| - 1];
    if i < |pages| - 1 {
      assert init[i] == pages[i];
      ExtractLastWins(init, i);
    }
  }

  /** Every stored record has "Update PDF" set. */
  lemma {:induction false} ExtractRecordsTicked(pages: seq<Page>, id: string)
    requires ExtractAll(pages).Ok? && id in ExtractAll(pages).value
    ensures ExtractAll(pages).value[id].updatePdf
    decreases |pages|
  {
    var init := pages[..|pages| - 1];
    var p := pages[|pages| - 1];
    if !(p.updatePdf && p.id == id) {
      ExtractRecordsTicked(init, id);
    }
  }

  /**
   * The extraction fails exactly when some ticked page cannot be flattened;
   * unticked pages are never read.
   */
  lemma {:induction false} ExtractFailsIff(pages: seq<Page>)
    ensures ExtractAll(pages).Err? <==>
            exists i :: 0 <= i < |pages| && pages[i].updatePdf && Flatten(pages[i]).Err?
    decreases |pages|
  {
    if pages != [] {
      var init := pages[..|pages| - 1];
      var last := |pages| - 1;
      ExtractFailsIff(init);
      if ExtractAll(init).Err? {
        var i :| 0 <= i < |init| && init[i].updatePdf && Flatten(init[i]).Err?;
        assert pages[i] == init[i];
      } else if exists i :: 0 <= i < |pages| && pages[i].updatePdf && Flatten(pages[i]).Err? {
        var i :| 0 <= i < |pages| && pages[i].updatePdf && Flatten(pages[i]).Err?;
        if i < last {
          assert init[i] == pages[i];
        }
      }
    }
  }

  /** A failed extraction reports the error of the first ticked page that cannot be flattened. */
  lemma {:induction false} ExtractFirstFailure(pages: seq<Page>)
    requires ExtractAll(pages).Err?
    ensures exists i :: && 0 <= i < |pages| && pages[i].updatePdf
                        && Flatten(pages[i]).Err? && ExtractAll(pages).error == Flatten(pages[i]).error
                        && forall j :: 0 <= j < i && pages[j].updatePdf ==> Flatten(pages[j]).Ok?
    decreases |pages|
  {
    var init := pages[..|pages| - 1];
    var last := |pages| - 1;
    if ExtractAll(init).Err? {
      ExtractFirstFailure(init);
      var i :| && 0 <= i < |init| && init[i].updatePdf
               && Flatten(init[i]).Err? && ExtractAll(init).error == Flatten(init[i]).error
               && forall j :: 0 <= j < i && init[j].updatePdf ==> Flatten(init[j]).Ok?;
      forall j | 0 <= j <= i ensures init[j] == pages[j] { }
    } else {
      ExtractFailsIff(init);
      forall j | 0 <= j < last ensures init[j] == pages[j] { }
      assert pages[last].updatePdf && Flatten(pages[last]).Err?;
    }
  }
}
