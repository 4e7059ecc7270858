/**
 * The scraper object: the list of colleges it has collected, and the
 * method that walks the eight state pages of the private-college directory
 * and appends one record per considered block.
 */
module Scraper {
  import opened Wrappers
  import opened PrivateColleges

  /** The states and territories, in the order their pages are read. */
  const AusStates: seq<string> := ["nsw", "vic", "qld", "wa", "sa", "tas", "nt", "act"]

  const BaseUrl: string := "https://www.privatecollegesaustralia.com"

  /** The address of the directory page of one state. */
  function PageUrl(state: string): string {
    BaseUrl + "/" + state + ".html"
  }

  /** The records the state pages contribute, page after page, up to and
      including a page whose scan ended early. Each page is scanned with
      `pick_this` starting up. */
  function ScanStates(fetch: string -> seq<Block>, states: seq<string>): Scan
    decreases |states|
  {
    if states == [] then Scan([], false)
    else
      var page := ScanPage(fetch(PageUrl(states[0])), true);
      if page.failed then page
      else
        var rest := ScanStates(fetch, states[1..]);
        Scan(page.records + rest.records, rest.failed)
  }

  /** A page that scans to the end is followed by the remaining states. */
  lemma ScanStatesNext(fetch: string -> seq<Block>, states: seq<string>, n: nat)
    requires n < |states| && !ScanPage(fetch(PageUrl(states[n])), true).failed
    ensures ScanStates(fetch, states[n..]).records
            == ScanPage(fetch(PageUrl(states[n])), true).records + ScanStates(fetch, states[n + 1..]).records
    ensures ScanStates(fetch, states[n..]).failed == ScanStates(fetch, states[n + 1..]).failed
  {
    assert states[n..][0] == states[n] && states[n..][1..] == states[n + 1..];
  }

  /** A page whose scan ends early ends the run. */
  lemma ScanStatesStop(fetch: string -> seq<Block>, states: seq<string>, n: nat)
    requires n < |states| && ScanPage(fetch(PageUrl(states[n])), true).failed
    ensures ScanStates(fetch, states[n..]) == ScanPage(fetch(PageUrl(states[n])), true)
  {
    assert states[n..][0] == states[n];
  }

  class EducationScraper {
    /** Every record collected so far, in the order collected. */
    var colleges: seq<College>

    constructor ()
      ensures colleges == []
    {
      colleges := [];
    }

    /** Reads the page of every state through `fetch` and appends the
        records of its considered blocks to `colleges`. `ok` is false when
        a parent without a `class` attribute stopped the run; what was
        appended before that stays. */
    method GetPrivateColleges(fetch: string -> seq<Block>) returns (ok: bool)
      modifies this
      ensures colleges == old(colleges) + ScanStates(fetch, AusStates).records
      ensures ok == !ScanStates(fetch, AusStates).failed
    {
      var n := 0;
      assert AusStates[n..] == AusStates;
      while n < |AusStates|
        invariant 0 <= n <= |AusStates|
        invariant colleges + ScanStates(fetch, AusStates[n..]).records
                  == old(colleges) + ScanStates(fetch, AusStates).records
        invariant ScanStates(fetch, AusStates[n..]).failed == ScanStates(fetch, AusStates).failed
      {
        var blocks := fetch(PageUrl(AusStates[n]));
        ghost var start := colleges;
        var pageOk := ReadPage(blocks);
        if !pageOk {
          ScanStatesStop(fetch, AusStates, n);
          ok := false;
          return;
        }
        ScanStatesNext(fetch, AusStates, n);
        ghost var found := ScanPage(blocks, true).records;
        ghost var later := ScanStates(fetch, AusStates[n + 1..]).records;
        assert colleges == start + found;
        SeqAssoc(start, found, later);
        n := n + 1;
      }
      ok := true;
    }

    /** The block loop of one page: appends the record of every considered
        block to `colleges`; `ok` is false when a considered block's parent
        has no `class` attribute, and the blocks after it are not read. */
    method ReadPage(blocks: seq<Block>) returns (ok: bool)
      modifies this
      ensures colleges == old(colleges) + ScanPage(blocks, true).records
      ensures ok == !ScanPage(blocks, true).failed
    {
      var pickThis := true;
      var i := 0;
      assert blocks[i..] == blocks;
      while i < |blocks|
        invariant 0 <= i <= |blocks|
        invariant colleges + ScanPage(blocks[i..], pickThis).records
                  == old(colleges) + ScanPage(blocks, true).records
        invariant ScanPage(blocks[i..], pickThis).failed == ScanPage(blocks, true).failed
      {
        var p := blocks[i];
        if !pickThis {
          ScanPageSkip(blocks, i, pickThis);
          pickThis := true;
          i := i + 1;
          continue;
        }
        if p.parent.None? {
          ScanPageSkip(blocks, i, pickThis);
          i := i + 1;
          continue;
        }
        var cls := p.parent.value.classAttr;
        if cls.None? {
          ScanPageFail(blocks, i, pickThis);
          assert colleges + [] == colleges;
          ok := false;
          return;
        }
        ScanPageTake(blocks, i, pickThis);
        if IsMultiColumn(cls.value) {
          pickThis := false;
        }
        var college := BuildCollege(p);
        ghost var rest := ScanPage(blocks[i + 1..], NextPick(true, p)).records;
        SeqAssoc(colleges, [college], rest);
        colleges := colleges + [college];
        i := i + 1;
      }
      assert blocks[i..] == [];
      assert ScanPage(blocks[i..], pickThis) == Scan([], false);
      assert colleges + [] == colleges;
      ok := true;
    }
  }
}
