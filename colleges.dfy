/**
 * One state page of the private-college directory and the records the
 * scraper builds from it.
 *
 * A page is the sequence of its matched `div.paragraph` blocks. Each block
 * has a parent element (or none), the text of its first `<strong>`
 * element (or none) and its `<span>` elements, each with its text and the
 * `href` attribute of each of its links (absent when the link has none).
 */
module PrivateColleges {
  import opened Wrappers
  import opened Text
  import opened Pattern
  import opened Heuristics

  /** The value of an HTML attribute as the parser returns it: a single
      string, or a list of strings for a multi-valued attribute such as
      `class`. */
  datatype AttrValue = Str(s: string) | Tokens(tokens: seq<string>)

  /** The parent element of a block; `classAttr` is `None` when it has no
      `class` attribute. */
  datatype Tag = Tag(classAttr: Option<AttrValue>)

  datatype Span = Span(text: string, hrefs: seq<Option<string>>)

  datatype Block = Block(parent: Option<Tag>, strong: Option<string>, spans: seq<Span>)

  /** The dictionary built for one block. `name` is always stored, possibly
      as `None`; for the other fields `None` means the key was never set. */
  datatype College = College(
    name: Option<string>,
    address: Option<string>,
    phone: Option<string>,
    email: Option<string>,
    website: Option<string>,
    labels: Option<seq<string>>)

  /** The class of the container of a multi-column layout. */
  const MultiColumnClass: string := "wsite-multicol-col"

  /** The comparison `pparent['class'] == 'wsite-multicol-col'`: true only
      for a class given as that single string. */
  predicate IsMultiColumn(cls: AttrValue) {
    cls == Str(MultiColumnClass)
  }

  /** The record as it stands before any span is read: the name only. */
  function NewCollege(p: Block): College {
    College(NameOf(p.strong), None, None, None, None, None)
  }

  /** `this_college.get('website', None)` taken as a condition. */
  predicate HasWebsite(c: College) {
    c.website.Some? && c.website.value != []
  }

  /** One link of a span: the first target holding `@` sets the e-mail
      address and the first holding `http` or `www.` sets the website;
      neither is ever overwritten. */
  function AnchorStep(c: College, href: Option<string>): College {
    if href.None? then c
    else
      var h := href.value;
      var c1 := if IsEmailHref(h) && c.email.None? then c.(email := Some(EmailOf(h))) else c;
      if IsWebsiteHref(h) && c1.website.None? then c1.(website := Some(WebsiteOf(h))) else c1
  }

  /** The links of a span, in order. */
  function AnchorSteps(c: College, hrefs: seq<Option<string>>): College
    decreases |hrefs|
  {
    if hrefs == [] then c else AnchorSteps(AnchorStep(c, hrefs[0]), hrefs[1..])
  }

  /** The examined text of a span: an address line or a phone line
      overwrites the field it gives. */
  function LineStep(c: College, t: string): College {
    var c1 := if LooksLikeAddress(t) then c.(address := Some(t)) else c;
    if IsPhoneLine(t) then c1.(phone := Some(Digits(t))) else c1
  }

  /** One span of a block: its text is examined, then its links are read,
      then the labels are taken from its text whenever a website is
      known. */
  function SpanStep(c: College, s: Span): College {
    var t := SpanText(s.text);
    var c2 := AnchorSteps(LineStep(c, t), s.hrefs);
    if HasWebsite(c2) then c2.(labels := Some(LabelsOf(t))) else c2
  }

  /** The spans of a block, in order. */
  function SpanSteps(c: College, spans: seq<Span>): College
    decreases |spans|
  {
    if spans == [] then c else SpanSteps(SpanStep(c, spans[0]), spans[1..])
  }

  lemma AnchorStepsUnfold(c: College, hrefs: seq<Option<string>>, k: nat)
    requires k < |hrefs|
    ensures AnchorSteps(c, hrefs[k..]) == AnchorSteps(AnchorStep(c, hrefs[k]), hrefs[k + 1..])
  {
    assert hrefs[k..][0] == hrefs[k] && hrefs[k..][1..] == hrefs[k + 1..];
  }

  lemma SpanStepsUnfold(c: College, spans: seq<Span>, j: nat)
    requires j < |spans|
    ensures SpanSteps(c, spans[j..]) == SpanSteps(SpanStep(c, spans[j]), spans[j + 1..])
  {
    assert spans[j..][0] == spans[j] && spans[j..][1..] == spans[j + 1..];
  }

  /** The record the scraper appends for a block it considers. */
  function CollegeOf(p: Block): College {
    SpanSteps(NewCollege(p), p.spans)
  }

  /** Reads the links of one span into the record, first e-mail target and
      first website target winning. */
  method ReadLinks(college: College, emailOrWeb: seq<Option<string>>) returns (updated: College)
    ensures updated == AnchorSteps(college, emailOrWeb)
  {
    updated := college;
    var k := 0;
    while k < |emailOrWeb|
      invariant 0 <= k <= |emailOrWeb|
      invariant AnchorSteps(updated, emailOrWeb[k..]) == AnchorSteps(college, emailOrWeb)
    {
      var a := emailOrWeb[k];
      ghost var c0 := updated;
      if a.Some? && IsEmailHref(a.value) && updated.email.None? {
        updated := updated.(email := Some(EmailOf(a.value)));
      }
      if a.Some? && IsWebsiteHref(a.value) && updated.website.None? {
        updated := updated.(website := Some(WebsiteOf(a.value)));
      }
      AnchorStepsUnfold(c0, emailOrWeb, k);
      k := k + 1;
    }
  }

  /** Builds the record of one block, updating it field by field while
      walking the spans. */
  method BuildCollege(p: Block) returns (college: College)
    ensures college == CollegeOf(p)
  {
    college := NewCollege(p);
    var j := 0;
    while j < |p.spans|
      invariant 0 <= j <= |p.spans|
      invariant SpanSteps(college, p.spans[j..]) == CollegeOf(p)
    {
      var s := p.spans[j];
      ghost var before := college;
      var spanText := SpanText(s.text);
      if LooksLikeAddress(spanText) {
        college := college.(address := Some(spanText));
      }
      if IsPhoneLine(spanText) {
        college := college.(phone := Some(Digits(spanText)));
      }
      var emailOrWeb := s.hrefs;
      if |emailOrWeb| > 0 {
        college := ReadLinks(college, emailOrWeb);
      }
      if HasWebsite(college) {
        college := college.(labels := Some(LabelsOf(spanText)));
      }
      SpanStepsUnfold(before, p.spans, j);
      j := j + 1;
    }
  }

  /** The flag `pick_this` after a block: a block reached with the flag
      down is skipped and puts it back up; a considered block whose parent
      is a multi-column container puts it down. */
  function NextPick(pick: bool, p: Block): bool {
    if !pick then true
    else if p.parent.None? || p.parent.value.classAttr.None? then pick
    else !IsMultiColumn(p.parent.value.classAttr.value)
  }

  /** The value of `pick_this` on arrival at each block of `blocks`. */
  function Flags(blocks: seq<Block>, pick: bool): (flags: seq<bool>)
    ensures |flags| == |blocks|
    decreases |blocks|
  {
    if blocks == [] then [] else [pick] + Flags(blocks[1..], NextPick(pick, blocks[0]))
  }

  /** The records one page contributes, and whether the scan ended early
      because a considered block's parent had no `class` attribute (the
      lookup raises and nothing more is read). */
  datatype Scan = Scan(records: seq<College>, failed: bool)

  /** The block loop of one page, entered with `pick_this` equal to `pick`. */
  function ScanPage(blocks: seq<Block>, pick: bool): Scan
    decreases |blocks|
  {
    if blocks == [] then Scan([], false)
    else
      var p := blocks[0];
      var next := NextPick(pick, p);
      if !pick || p.parent.None? then ScanPage(blocks[1..], next)
      else if p.parent.value.classAttr.None? then Scan([], true)
      else
        var rest := ScanPage(blocks[1..], next);
        Scan([CollegeOf(p)] + rest.records, rest.failed)
  }

  /** A block reached with the flag down, or without a parent, adds nothing
      and passes the flag on. */
  lemma ScanPageSkip(blocks: seq<Block>, i: nat, pick: bool)
    requires i < |blocks| && (!pick || blocks[i].parent.None?)
    ensures ScanPage(blocks[i..], pick) == ScanPage(blocks[i + 1..], NextPick(pick, blocks[i]))
  {
    assert blocks[i..][0] == blocks[i] && blocks[i..][1..] == blocks[i + 1..];
  }

  /** A considered block whose parent has no class ends the scan. */
  lemma ScanPageFail(blocks: seq<Block>, i: nat, pick: bool)
    requires i < |blocks| && pick && blocks[i].parent.Some? && blocks[i].parent.value.classAttr.None?
    ensures ScanPage(blocks[i..], pick) == Scan([], true)
  {
    assert blocks[i..][0] == blocks[i];
  }

  /** A considered block whose parent has a class adds its record. */
  lemma ScanPageTake(blocks: seq<Block>, i: nat, pick: bool)
    requires i < |blocks| && pick && blocks[i].parent.Some? && blocks[i].parent.value.classAttr.Some?
    ensures ScanPage(blocks[i..], pick).records
            == [CollegeOf(blocks[i])] + ScanPage(blocks[i + 1..], NextPick(pick, blocks[i])).records
    ensures ScanPage(blocks[i..], pick).failed == ScanPage(blocks[i + 1..], NextPick(pick, blocks[i])).failed
  {
    assert blocks[i..][0] == blocks[i] && blocks[i..][1..] == blocks[i + 1..];
  }
}
