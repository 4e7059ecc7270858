/**
 * What the scan of a state page yields, stated against the page itself:
 * which blocks the flag `pick_this` lets through, how many records a page
 * gives, and where the scan stops when a parent has no `class` attribute.
 */
module PageFacts {
  import opened Wrappers
  import opened PrivateColleges
  import opened Scraper

  // ---------------------------------------------------------------------
  // The flag `pick_this`.
  // ---------------------------------------------------------------------

  /** The parent of the block is a multi-column container. */
  predicate HasMultiColumnParent(p: Block) {
    p.parent.Some? && p.parent.value.classAttr.Some? && IsMultiColumn(p.parent.value.classAttr.value)
  }

  /** The flag starts at the given value and each block passes it on to the
      next. */
  lemma {:induction false} FlagsShape(blocks: seq<Block>, pick: bool)
    ensures blocks != [] ==> Flags(blocks, pick)[0] == pick
    ensures forall i :: 0 < i < |blocks| ==> Flags(blocks, pick)[i] == NextPick(Flags(blocks, pick)[i - 1], blocks[i - 1])
    decreases |blocks|
  {
    if blocks != [] {
      var rest := blocks[1..];
      var next := NextPick(pick, blocks[0]);
      FlagsShape(rest, next);
      assert Flags(blocks, pick) == [pick] + Flags(rest, next);
      forall i | 0 < i < |blocks|
        ensures Flags(blocks, pick)[i] == NextPick(Flags(blocks, pick)[i - 1], blocks[i - 1])
      {
        assert Flags(blocks, pick)[i] == Flags(rest, next)[i - 1];
        if i > 1 {
          assert Flags(blocks, pick)[i - 1] == Flags(rest, next)[i - 2];
        }
      }
    }
  }

  /** A block is skipped only right after a considered block whose parent
      is a multi-column container, and the block after a skipped one is
      always considered: at most one block in a row is skipped. The first
      block of a page is always considered. */
  lemma AtMostOneSkip(blocks: seq<Block>)
    ensures blocks != [] ==> Flags(blocks, true)[0]
    ensures forall i :: 0 < i < |blocks| && !Flags(blocks, true)[i] ==>
      Flags(blocks, true)[i - 1] && HasMultiColumnParent(blocks[i - 1])
    ensures forall i :: 0 <= i < |blocks| - 1 && !Flags(blocks, true)[i] ==> Flags(blocks, true)[i + 1]
  {
    var fl := Flags(blocks, true);
    FlagsShape(blocks, true);
    forall i | 0 < i < |blocks| && !fl[i] ensures fl[i - 1] && HasMultiColumnParent(blocks[i - 1]) {
      assert fl[i] == NextPick(fl[i - 1], blocks[i - 1]);
    }
    forall i | 0 <= i < |blocks| - 1 && !fl[i] ensures fl[i + 1] {
      assert fl[i + 1] == NextPick(fl[i], blocks[i]);
    }
  }

  /** With the class lists the HTML parser gives (never the single string
      the scraper compares against), no block is ever skipped. */
  lemma {:induction false} ClassListsNeverSkip(blocks: seq<Block>, pick: bool)
    requires pick
    requires forall i :: 0 <= i < |blocks| && blocks[i].parent.Some? && blocks[i].parent.value.classAttr.Some?
               ==> blocks[i].parent.value.classAttr.value.Tokens?
    ensures forall i :: 0 <= i < |blocks| ==> Flags(blocks, pick)[i]
    decreases |blocks|
  {
    if blocks != [] {
      var rest := blocks[1..];
      assert NextPick(pick, blocks[0]);
      ClassListsNeverSkip(rest, NextPick(pick, blocks[0]));
      assert Flags(blocks, pick) == [pick] + Flags(rest, NextPick(pick, blocks[0]));
      forall i | 0 < i < |blocks| ensures Flags(blocks, pick)[i] {
        assert Flags(blocks, pick)[i] == Flags(rest, NextPick(pick, blocks[0]))[i - 1];
      }
    }
  }

  // ---------------------------------------------------------------------
  // The blocks a page scan considers and the records it gives.
  // ---------------------------------------------------------------------

  /** The blocks with a parent that the flag lets through, in order: the
      blocks the scraper builds a record for while nothing stops it. */
  function Considered(blocks: seq<Block>, pick: bool): (qs: seq<Block>)
    ensures |qs| <= |blocks|
    ensures forall i :: 0 <= i < |qs| ==> qs[i].parent.Some?
    decreases |blocks|
  {
    if blocks == [] then []
    else
      var p := blocks[0];
      var rest := Considered(blocks[1..], NextPick(pick, p));
      if pick && p.parent.Some? then [p] + rest else rest
  }

  /** The blocks with a parent whose arrival flag is up, in order: a
      filter over the flag list, independent of how the scan carries the
      flag. */
  function Picked(blocks: seq<Block>, flags: seq<bool>): (qs: seq<Block>)
    requires |flags| == |blocks|
    ensures |qs| <= |blocks|
    ensures forall i :: 0 <= i < |qs| ==> qs[i].parent.Some?
    decreases |blocks|
  {
    if blocks == [] then []
    else (if flags[0] && blocks[0].parent.Some? then [blocks[0]] else []) + Picked(blocks[1..], flags[1..])
  }

  /** The blocks the scan considers are exactly those with a parent whose
      arrival value of `pick_this` is up: a block is dropped precisely
      when its flag is down or it has no parent. */
  lemma {:induction false} ConsideredIsPicked(blocks: seq<Block>, pick: bool)
    ensures Considered(blocks, pick) == Picked(blocks, Flags(blocks, pick))
    decreases |blocks|
  {
    if blocks != [] {
      var next := NextPick(pick, blocks[0]);
      ConsideredIsPicked(blocks[1..], next);
      assert Flags(blocks, pick)[0] == pick;
      assert Flags(blocks, pick)[1..] == Flags(blocks[1..], next);
    }
  }

  /** The records of a sequence of blocks, one each, in order. */
  function CollegesOf(qs: seq<Block>): (cs: seq<College>)
    ensures |cs| == |qs|
    ensures forall i :: 0 <= i < |qs| ==> cs[i] == CollegeOf(qs[i])
    decreases |qs|
  {
    if qs == [] then [] else [CollegeOf(qs[0])] + CollegesOf(qs[1..])
  }

  /** A block whose parent has no `class` attribute. */
  predicate Unclassed(q: Block) {
    q.parent.Some? && q.parent.value.classAttr.None?
  }

  /** The position of the first block whose parent has no class, or the
      length when there is none. */
  function FirstUnclassed(qs: seq<Block>): (k: nat)
    ensures k <= |qs|
    ensures forall j :: 0 <= j < k ==> !Unclassed(qs[j])
    ensures k < |qs| ==> Unclassed(qs[k])
    decreases |qs|
  {
    if qs == [] then 0
    else if Unclassed(qs[0]) then 0
    else 1 + FirstUnclassed(qs[1..])
  }

  /** The scan of a page gives one record per considered block, stopping
      at the first considered block whose parent has no class; it ends
      early exactly when there is such a block. */
  lemma {:induction false} ScanPageMeaning(blocks: seq<Block>, pick: bool)
    ensures var qs := Considered(blocks, pick); var k := FirstUnclassed(qs);
      ScanPage(blocks, pick).records == CollegesOf(qs[..k])
      && (ScanPage(blocks, pick).failed <==> k < |qs|)
    decreases |blocks|
  {
    var qs := Considered(blocks, pick);
    if blocks == [] {
      assert qs[..0] == [];
    } else {
      var p := blocks[0];
      var rest := blocks[1..];
      var next := NextPick(pick, p);
      var qr := Considered(rest, next);
      ScanPageMeaning(rest, next);
      if !pick || p.parent.None? {
        assert qs == qr;
      } else if p.parent.value.classAttr.None? {
        assert qs == [p] + qr;
        assert Unclassed(qs[0]);
        assert qs[..0] == [];
      } else {
        assert qs == [p] + qr;
        var kr := FirstUnclassed(qr);
        assert FirstUnclassed(qs) == 1 + kr;
        CollegesOfCons(p, qr, kr);
      }
    }
  }

  lemma CollegesOfCons(p: Block, qr: seq<Block>, k: nat)
    requires k <= |qr|
    ensures CollegesOf(([p] + qr)[..1 + k]) == [CollegeOf(p)] + CollegesOf(qr[..k])
  {
    var qs := [p] + qr;
    assert qs[..1 + k][0] == p;
    assert qs[..1 + k][1..] == qr[..k];
  }

  /** A page scanned to the end gives exactly the records of its
      considered blocks; a page whose scan ended early gives a prefix of
      them, up to the block that stopped it. */
  lemma ScanPageRecords(blocks: seq<Block>, pick: bool)
    ensures var s := ScanPage(blocks, pick); var qs := Considered(blocks, pick);
      (!s.failed ==> s.records == CollegesOf(qs))
      && (s.failed ==> exists k :: 0 <= k < |qs| && Unclassed(qs[k]) && s.records == CollegesOf(qs[..k]))
  {
    var qs := Considered(blocks, pick);
    ScanPageMeaning(blocks, pick);
    assert qs[..|qs|] == qs;
  }

  /** A block without a parent, reached with the flag up, gives no record
      and leaves the flag as it was. */
  lemma OrphanBlockIgnored(blocks: seq<Block>, pick: bool)
    requires blocks != [] && blocks[0].parent.None? && pick
    ensures NextPick(pick, blocks[0]) == pick
    ensures Considered(blocks, pick) == Considered(blocks[1..], pick)
    ensures ScanPage(blocks, pick) == ScanPage(blocks[1..], pick)
  {
  }

  // ---------------------------------------------------------------------
  // How many records a page gives.
  // ---------------------------------------------------------------------

  /** The number of blocks that have a parent. */
  function ParentCount(blocks: seq<Block>): (n: nat)
    ensures n <= |blocks|
    decreases |blocks|
  {
    if blocks == [] then 0 else (if blocks[0].parent.Some? then 1 else 0) + ParentCount(blocks[1..])
  }

  /** The number of blocks the flag skips. */
  function SkipCount(flags: seq<bool>): (n: nat)
    ensures n <= |flags|
    decreases |flags|
  {
    if flags == [] then 0 else (if flags[0] then 0 else 1) + SkipCount(flags[1..])
  }

  /** Every block with a parent is considered unless the flag skips it. */
  lemma {:induction false} ConsideredCount(blocks: seq<Block>, pick: bool)
    ensures |Considered(blocks, pick)| <= ParentCount(blocks)
    ensures ParentCount(blocks) - SkipCount(Flags(blocks, pick)) <= |Considered(blocks, pick)|
    decreases |blocks|
  {
    if blocks != [] {
      var next := NextPick(pick, blocks[0]);
      ConsideredCount(blocks[1..], next);
      assert Flags(blocks, pick)[1..] == Flags(blocks[1..], next);
    }
  }

  /** A page gives at most one record per block, and, when scanned to the
      end, at least one per block with a parent less one per skipped
      block. */
  lemma PageRecordCount(blocks: seq<Block>)
    ensures |ScanPage(blocks, true).records| <= |blocks|
    ensures !ScanPage(blocks, true).failed ==>
      ParentCount(blocks) - SkipCount(Flags(blocks, true)) <= |ScanPage(blocks, true).records|
  {
    ScanPageRecords(blocks, true);
    ConsideredCount(blocks, true);
  }

  /** With the class lists the HTML parser gives, a page scanned to the
      end gives one record per block with a parent. */
  lemma ClassListsRecordCount(blocks: seq<Block>)
    requires forall i :: 0 <= i < |blocks| && blocks[i].parent.Some? && blocks[i].parent.value.classAttr.Some?
               ==> blocks[i].parent.value.classAttr.value.Tokens?
    ensures !ScanPage(blocks, true).failed ==> |ScanPage(blocks, true).records| == ParentCount(blocks)
  {
    ClassListsNeverSkip(blocks, true);
    NoFalseNoSkip(Flags(blocks, true));
    ConsideredCount(blocks, true);
    ScanPageRecords(blocks, true);
  }

  lemma {:induction false} NoFalseNoSkip(flags: seq<bool>)
    requires forall i :: 0 <= i < |flags| ==> flags[i]
    ensures SkipCount(flags) == 0
    decreases |flags|
  {
    if flags != [] {
      NoFalseNoSkip(flags[1..]);
    }
  }

  // ---------------------------------------------------------------------
  // The run over all the states.
  // ---------------------------------------------------------------------

  /** The number of blocks on the pages of the given states. */
  function TotalBlocks(fetch: string -> seq<Block>, states: seq<string>): nat
    decreases |states|
  {
    if states == [] then 0 else |fetch(PageUrl(states[0]))| + TotalBlocks(fetch, states[1..])
  }

  /** A run collects at most one record per block of the pages of all the
      given states, and it ends early only when some state's page did. */
  lemma {:induction false} RunRecordCount(fetch: string -> seq<Block>, states: seq<string>)
    ensures |ScanStates(fetch, states).records| <= TotalBlocks(fetch, states)
    ensures ScanStates(fetch, states).failed ==>
      exists n :: 0 <= n < |states| && ScanPage(fetch(PageUrl(states[n])), true).failed
    decreases |states|
  {
    if states != [] {
      PageRecordCount(fetch(PageUrl(states[0])));
      RunRecordCount(fetch, states[1..]);
      if ScanStates(fetch, states).failed && !ScanPage(fetch(PageUrl(states[0])), true).failed {
        var n :| 0 <= n < |states[1..]| && ScanPage(fetch(PageUrl(states[1..][n])), true).failed;
        assert states[1..][n] == states[n + 1];
      }
    }
  }

  /** Conversely, a page of any state whose scan ends early ends the whole
      run early: the `KeyError` escapes the loop over the states. */
  lemma {:induction false} SomePageFailsRunFails(fetch: string -> seq<Block>, states: seq<string>, n: nat)
    requires n < |states| && ScanPage(fetch(PageUrl(states[n])), true).failed
    ensures ScanStates(fetch, states).failed
    decreases n
  {
    if n > 0 && !ScanPage(fetch(PageUrl(states[0])), true).failed {
      assert states[1..][n - 1] == states[n];
      SomePageFailsRunFails(fetch, states[1..], n - 1);
    }
  }
}
