/**
 * What the record of one block holds, stated against the block itself
 * rather than against the order in which the scraper writes the fields:
 * the name comes from the `<strong>` text, the address and the phone number
 * from the last span that gives them, the e-mail address and the website
 * from the first link that gives them, and the labels from the last span
 * once a website is known.
 */
module CollegeFacts {
  import opened Wrappers
  import opened Text
  import opened Pattern
  import opened Heuristics
  import opened PrivateColleges

  // ---------------------------------------------------------------------
  // Fields read from links: the e-mail address and the website.
  // ---------------------------------------------------------------------

  datatype LinkField = EmailLink | WebsiteLink

  /** Whether a link target gives the field. */
  predicate LinkTest(f: LinkField, href: string) {
    match f
    case EmailLink => IsEmailHref(href)
    case WebsiteLink => IsWebsiteHref(href)
  }

  /** The value a qualifying link target gives the field. */
  function LinkReading(f: LinkField, href: string): string {
    match f
    case EmailLink => EmailOf(href)
    case WebsiteLink => WebsiteOf(href)
  }

  function LinkOf(c: College, f: LinkField): Option<string> {
    match f
    case EmailLink => c.email
    case WebsiteLink => c.website
  }

  /** The link at position `k` gives the field. */
  predicate LinkAt(hrefs: seq<Option<string>>, k: int, f: LinkField) {
    0 <= k < |hrefs| && hrefs[k].Some? && LinkTest(f, hrefs[k].value)
  }

  /** The link at position `k` is the first that gives the field. */
  predicate FirstLinkAt(hrefs: seq<Option<string>>, k: int, f: LinkField) {
    LinkAt(hrefs, k, f) && forall j :: 0 <= j < k ==> !LinkAt(hrefs, j, f)
  }

  /** The value the first qualifying link gives, a reference definition
      independent of the record. */
  function FirstLink(hrefs: seq<Option<string>>, f: LinkField): Option<string>
    decreases |hrefs|
  {
    if hrefs == [] then None
    else if hrefs[0].Some? && LinkTest(f, hrefs[0].value) then Some(LinkReading(f, hrefs[0].value))
    else FirstLink(hrefs[1..], f)
  }

  /** `FirstLink` is absent exactly when no link qualifies, and otherwise
      is the reading of the first link that does. */
  lemma {:induction false} FirstLinkSpec(hrefs: seq<Option<string>>, f: LinkField)
    ensures FirstLink(hrefs, f).None? <==> forall k :: 0 <= k < |hrefs| ==> !LinkAt(hrefs, k, f)
    ensures FirstLink(hrefs, f).Some? ==>
      exists k :: FirstLinkAt(hrefs, k, f) && FirstLink(hrefs, f).value == LinkReading(f, hrefs[k].value)
    decreases |hrefs|
  {
    if hrefs != [] {
      var rest := hrefs[1..];
      FirstLinkSpec(rest, f);
      if LinkAt(hrefs, 0, f) {
        assert FirstLinkAt(hrefs, 0, f);
      } else if FirstLink(rest, f).Some? {
        var k :| FirstLinkAt(rest, k, f) && FirstLink(rest, f).value == LinkReading(f, rest[k].value);
        forall j | 0 <= j < k + 1 ensures !LinkAt(hrefs, j, f) {
          if j > 0 {
            LinkAtShift(hrefs, j - 1, f);
          }
        }
        LinkAtShift(hrefs, k, f);
        assert FirstLinkAt(hrefs, k + 1, f);
      } else {
        forall k | 0 <= k < |hrefs| ensures !LinkAt(hrefs, k, f) {
          if k > 0 {
            LinkAtShift(hrefs, k - 1, f);
          }
        }
      }
    }
  }

  lemma LinkAtShift(hrefs: seq<Option<string>>, k: nat, f: LinkField)
    requires hrefs != []
    ensures LinkAt(hrefs[1..], k, f) <==> LinkAt(hrefs, k + 1, f)
  {
  }

  /** The first qualifying link of a concatenation is found in the first
      part when it has one. */
  lemma {:induction false} FirstLinkAppend(a: seq<Option<string>>, b: seq<Option<string>>, f: LinkField)
    ensures FirstLink(a + b, f) == if FirstLink(a, f).Some? then FirstLink(a, f) else FirstLink(b, f)
    decreases |a|
  {
    if a == [] {
      assert a + b == b;
    } else {
      assert (a + b)[0] == a[0] && (a + b)[1..] == a[1..] + b;
      FirstLinkAppend(a[1..], b, f);
    }
  }

  /** A website read from a link is never empty. */
  lemma FirstWebsiteNonEmpty(hrefs: seq<Option<string>>)
    ensures FirstLink(hrefs, WebsiteLink).Some? ==> FirstLink(hrefs, WebsiteLink).value != []
  {
    FirstLinkSpec(hrefs, WebsiteLink);
  }

  /** One link sets a field only when the field is still unset and the
      link qualifies. */
  lemma AnchorStepLink(c: College, href: Option<string>, f: LinkField)
    ensures LinkOf(AnchorStep(c, href), f)
            == if LinkOf(c, f).Some? then LinkOf(c, f)
               else if href.Some? && LinkTest(f, href.value) then Some(LinkReading(f, href.value))
               else None
  {
  }

  /** Reading the links of a span: a field already set is kept, an unset
      one takes the reading of the first qualifying link. */
  lemma {:induction false} AnchorStepsLink(c: College, hrefs: seq<Option<string>>, f: LinkField)
    ensures LinkOf(AnchorSteps(c, hrefs), f) == if LinkOf(c, f).Some? then LinkOf(c, f) else FirstLink(hrefs, f)
    decreases |hrefs|
  {
    if hrefs != [] {
      AnchorStepLink(c, hrefs[0], f);
      AnchorStepsLink(AnchorStep(c, hrefs[0]), hrefs[1..], f);
    }
  }

  /** Reading links touches neither the name, the address, the phone
      number nor the labels. */
  lemma {:induction false} AnchorStepsKeeps(c: College, hrefs: seq<Option<string>>)
    ensures var r := AnchorSteps(c, hrefs);
      r.name == c.name && r.address == c.address && r.phone == c.phone && r.labels == c.labels
    decreases |hrefs|
  {
    if hrefs != [] {
      AnchorStepsKeeps(AnchorStep(c, hrefs[0]), hrefs[1..]);
    }
  }

  /** The link targets of all the spans of a block, in document order. */
  function AllHrefs(spans: seq<Span>): (hrefs: seq<Option<string>>)
    ensures |spans| > 0 ==> hrefs == spans[0].hrefs + AllHrefs(spans[1..])
    decreases |spans|
  {
    if spans == [] then [] else spans[0].hrefs + AllHrefs(spans[1..])
  }

  lemma SpanStepLink(c: College, s: Span, f: LinkField)
    ensures LinkOf(SpanStep(c, s), f) == if LinkOf(c, f).Some? then LinkOf(c, f) else FirstLink(s.hrefs, f)
  {
    var c2 := LineStep(c, SpanText(s.text));
    assert LinkOf(c2, f) == LinkOf(c, f);
    AnchorStepsLink(c2, s.hrefs, f);
  }

  /** Across the spans of a block, a link field set once is never
      overwritten, and an unset one takes the reading of the first
      qualifying link of the whole block. */
  lemma {:induction false} SpanStepsLink(c: College, spans: seq<Span>, f: LinkField)
    ensures LinkOf(SpanSteps(c, spans), f) == if LinkOf(c, f).Some? then LinkOf(c, f) else FirstLink(AllHrefs(spans), f)
    decreases |spans|
  {
    if spans != [] {
      SpanStepLink(c, spans[0], f);
      SpanStepsLink(SpanStep(c, spans[0]), spans[1..], f);
      FirstLinkAppend(spans[0].hrefs, AllHrefs(spans[1..]), f);
    }
  }

  /** Once set, the e-mail address and the website of a record are never
      overwritten by later spans. */
  lemma LinkKept(c: College, spans: seq<Span>, f: LinkField)
    requires LinkOf(c, f).Some?
    ensures LinkOf(SpanSteps(c, spans), f) == LinkOf(c, f)
  {
    SpanStepsLink(c, spans, f);
  }

  /** The e-mail address of a record is absent exactly when no link of the
      block holds `@`, and otherwise is read from the first that does. */
  lemma CollegeEmail(p: Block)
    ensures var hs := AllHrefs(p.spans); var e := CollegeOf(p).email;
      (e.None? <==> forall k :: 0 <= k < |hs| ==> !LinkAt(hs, k, EmailLink))
      && (e.Some? ==> exists k :: FirstLinkAt(hs, k, EmailLink) && e.value == EmailOf(hs[k].value))
  {
    SpanStepsLink(NewCollege(p), p.spans, EmailLink);
    FirstLinkSpec(AllHrefs(p.spans), EmailLink);
  }

  /** The website of a record is absent exactly when no link of the block
      holds `http` or `www.`, and otherwise is the trimmed target of the
      first that does, never empty. */
  lemma CollegeWebsite(p: Block)
    ensures var hs := AllHrefs(p.spans); var w := CollegeOf(p).website;
      (w.None? <==> forall k :: 0 <= k < |hs| ==> !LinkAt(hs, k, WebsiteLink))
      && (w.Some? ==> w.value != [] && exists k :: FirstLinkAt(hs, k, WebsiteLink) && w.value == WebsiteOf(hs[k].value))
  {
    SpanStepsLink(NewCollege(p), p.spans, WebsiteLink);
    FirstLinkSpec(AllHrefs(p.spans), WebsiteLink);
    FirstWebsiteNonEmpty(AllHrefs(p.spans));
  }

  // ---------------------------------------------------------------------
  // Fields read from span text: the address and the phone number.
  // ---------------------------------------------------------------------

  datatype LineField = AddressLine | PhoneLine

  /** Whether the examined text of a span gives the field. */
  predicate LineTest(f: LineField, t: string) {
    match f
    case AddressLine => LooksLikeAddress(t)
    case PhoneLine => IsPhoneLine(t)
  }

  /** The value such a text gives the field. */
  function LineReading(f: LineField, t: string): string {
    match f
    case AddressLine => t
    case PhoneLine => Digits(t)
  }

  function LineOf(c: College, f: LineField): Option<string> {
    match f
    case AddressLine => c.address
    case PhoneLine => c.phone
  }

  /** The span at position `i` gives the field. */
  predicate LineAt(spans: seq<Span>, i: int, f: LineField) {
    0 <= i < |spans| && LineTest(f, SpanText(spans[i].text))
  }

  /** The span at position `i` is the last that gives the field. */
  predicate LastLineAt(spans: seq<Span>, i: int, f: LineField) {
    LineAt(spans, i, f) && forall j :: i < j < |spans| ==> !LineAt(spans, j, f)
  }

  /** The value the last qualifying span gives, a reference definition
      independent of the record. */
  function LastLine(spans: seq<Span>, f: LineField): Option<string>
    decreases |spans|
  {
    if spans == [] then None
    else
      var later := LastLine(spans[1..], f);
      if later.Some? then later
      else
        var t := SpanText(spans[0].text);
        if LineTest(f, t) then Some(LineReading(f, t)) else None
  }

  /** `LastLine` is absent exactly when no span qualifies, and otherwise
      is the reading of the last span that does. */
  lemma {:induction false} LastLineSpec(spans: seq<Span>, f: LineField)
    ensures LastLine(spans, f).None? <==> forall i :: 0 <= i < |spans| ==> !LineAt(spans, i, f)
    ensures LastLine(spans, f).Some? ==>
      exists i :: LastLineAt(spans, i, f) && LastLine(spans, f).value == LineReading(f, SpanText(spans[i].text))
    decreases |spans|
  {
    if spans != [] {
      var rest := spans[1..];
      LastLineSpec(rest, f);
      if LastLine(rest, f).Some? {
        assert LastLine(spans, f) == LastLine(rest, f);
        var i :| LastLineAt(rest, i, f) && LastLine(rest, f).value == LineReading(f, SpanText(rest[i].text));
        assert rest[i] == spans[i + 1];
        forall j | i + 1 < j < |spans| ensures !LineAt(spans, j, f) {
          assert i < j - 1 < |rest|;
          assert !LineAt(rest, j - 1, f);
          LineAtShift(spans, j - 1, f);
        }
        LineAtShift(spans, i, f);
        assert LastLineAt(spans, i + 1, f);
      } else if LineAt(spans, 0, f) {
        forall j | 0 < j < |spans| ensures !LineAt(spans, j, f) {
          LineAtShift(spans, j - 1, f);
        }
        assert LastLineAt(spans, 0, f);
        assert LastLine(spans, f) == Some(LineReading(f, SpanText(spans[0].text)));
      } else {
        assert LastLine(spans, f).None?;
        forall i | 0 <= i < |spans| ensures !LineAt(spans, i, f) {
          if i > 0 {
            LineAtShift(spans, i - 1, f);
          }
        }
      }
    }
  }

  lemma LineAtShift(spans: seq<Span>, i: nat, f: LineField)
    requires spans != []
    ensures LineAt(spans[1..], i, f) <==> LineAt(spans, i + 1, f)
  {
  }

  lemma SpanStepLine(c: College, s: Span, f: LineField)
    ensures var t := SpanText(s.text);
      LineOf(SpanStep(c, s), f) == if LineTest(f, t) then Some(LineReading(f, t)) else LineOf(c, f)
  {
    var t := SpanText(s.text);
    var c2 := LineStep(c, t);
    var c3 := AnchorSteps(c2, s.hrefs);
    AnchorStepsKeeps(c2, s.hrefs);
    assert SpanStep(c, s).address == c3.address && SpanStep(c, s).phone == c3.phone;
    match f {
      case AddressLine =>
        assert c2.address == if LooksLikeAddress(t) then Some(t) else c.address;
      case PhoneLine =>
        assert c2.phone == if IsPhoneLine(t) then Some(Digits(t)) else c.phone;
    }
  }

  /** Across the spans of a block, every qualifying span overwrites the
      field, so the last one wins; without one the field is kept. */
  lemma {:induction false} SpanStepsLine(c: College, spans: seq<Span>, f: LineField)
    ensures LineOf(SpanSteps(c, spans), f) == if LastLine(spans, f).Some? then LastLine(spans, f) else LineOf(c, f)
    decreases |spans|
  {
    if spans != [] {
      SpanStepLine(c, spans[0], f);
      SpanStepsLine(SpanStep(c, spans[0]), spans[1..], f);
    }
  }

  /** The address of a record is absent exactly when no span looks like an
      address, and otherwise is the examined text of the last that does. */
  lemma CollegeAddress(p: Block)
    ensures var a := CollegeOf(p).address;
      (a.None? <==> forall i :: 0 <= i < |p.spans| ==> !LineAt(p.spans, i, AddressLine))
      && (a.Some? ==> exists i :: LastLineAt(p.spans, i, AddressLine) && a.value == SpanText(p.spans[i].text))
  {
    SpanStepsLine(NewCollege(p), p.spans, AddressLine);
    LastLineSpec(p.spans, AddressLine);
  }

  /** The phone number of a record is absent exactly when no span starts
      with `phone`, and otherwise is made of digits only: the digits of the
      examined text of the last span that does. */
  lemma CollegePhone(p: Block)
    ensures var ph := CollegeOf(p).phone;
      (ph.None? <==> forall i :: 0 <= i < |p.spans| ==> !LineAt(p.spans, i, PhoneLine))
      && (ph.Some? ==> exists i :: LastLineAt(p.spans, i, PhoneLine) && ph.value == Digits(SpanText(p.spans[i].text)))
      && (ph.Some? ==> forall k :: 0 <= k < |ph.value| ==> IsDigit(ph.value[k]))
  {
    SpanStepsLine(NewCollege(p), p.spans, PhoneLine);
    LastLineSpec(p.spans, PhoneLine);
  }

  // ---------------------------------------------------------------------
  // The name and the labels.
  // ---------------------------------------------------------------------

  lemma {:induction false} SpanStepsKeepName(c: College, spans: seq<Span>)
    ensures SpanSteps(c, spans).name == c.name
    decreases |spans|
  {
    if spans != [] {
      SpanStepKeepsName(c, spans[0]);
      SpanStepsKeepName(SpanStep(c, spans[0]), spans[1..]);
    }
  }

  lemma SpanStepKeepsName(c: College, s: Span)
    ensures SpanStep(c, s).name == c.name
  {
    var t := SpanText(s.text);
    var c2 := LineStep(c, t);
    assert c2.name == c.name;
    var c3 := AnchorSteps(c2, s.hrefs);
    AnchorStepsKeeps(c2, s.hrefs);
    assert SpanStep(c, s).name == c3.name;
  }

  /** Every record carries the name read from the block's `<strong>` text,
      `None` when the block has none. */
  lemma CollegeName(p: Block)
    ensures CollegeOf(p).name == NameOf(p.strong)
    ensures CollegeOf(p).name.Some? <==> p.strong.Some?
  {
    SpanStepsKeepName(NewCollege(p), p.spans);
  }

  /** Between two spans, the record has labels exactly when it has a
      website, and a website is never empty. */
  ghost predicate LabelsFollowWebsite(c: College) {
    (c.labels.Some? <==> c.website.Some?) && (c.website.Some? ==> c.website.value != [])
  }

  lemma SpanStepFollow(c: College, s: Span)
    requires LabelsFollowWebsite(c)
    ensures LabelsFollowWebsite(SpanStep(c, s))
  {
    SpanStepLabels(c, s);
  }

  lemma SpanStepLabels(c: College, s: Span)
    requires LabelsFollowWebsite(c)
    ensures LabelsFollowWebsite(SpanStep(c, s))
    ensures SpanStep(c, s).labels.Some? ==> SpanStep(c, s).labels == Some(LabelsOf(SpanText(s.text)))
  {
    var t := SpanText(s.text);
    var c2 := LineStep(c, t);
    var c3 := AnchorSteps(c2, s.hrefs);
    assert SpanStep(c, s) == if HasWebsite(c3) then c3.(labels := Some(LabelsOf(t))) else c3;
    assert c2.labels == c.labels && c2.website == c.website;
    AnchorStepsKeeps(c2, s.hrefs);
    AnchorStepsLink(c2, s.hrefs, WebsiteLink);
    FirstWebsiteNonEmpty(s.hrefs);
    assert c3.labels == c.labels;
    assert c3.website.Some? ==> HasWebsite(c3);
  }

  /** Across the spans of a block, labels stay tied to the website. */
  lemma {:induction false} SpanStepsFollow(c: College, spans: seq<Span>)
    requires LabelsFollowWebsite(c)
    ensures LabelsFollowWebsite(SpanSteps(c, spans))
    decreases |spans|
  {
    if spans != [] {
      SpanStepFollow(c, spans[0]);
      SpanStepsFollow(SpanStep(c, spans[0]), spans[1..]);
    }
  }

  /** The spans of a block are read one after the other: the last one is
      applied to the record built from the others. */
  lemma {:induction false} SpanStepsSnoc(c: College, spans: seq<Span>)
    requires spans != []
    ensures SpanSteps(c, spans) == SpanStep(SpanSteps(c, spans[..|spans| - 1]), spans[|spans| - 1])
  {
    var init, last := spans[..|spans| - 1], spans[|spans| - 1];
    assert spans == init + [last];
    SpanStepsAppendOne(c, init, last);
  }

  lemma {:induction false} SpanStepsAppendOne(c: College, init: seq<Span>, last: Span)
    ensures SpanSteps(c, init + [last]) == SpanStep(SpanSteps(c, init), last)
    decreases |init|
  {
    if init == [] {
      assert init + [last] == [last] && [last][1..] == [];
    } else {
      var c1 := SpanStep(c, init[0]);
      assert (init + [last])[0] == init[0];
      assert (init + [last])[1..] == init[1..] + [last];
      SpanStepsAppendOne(c1, init[1..], last);
    }
  }

  /** Whenever labels are present after the spans of a block, they are
      those of the last span read. */
  lemma SpanStepsLabels(c: College, spans: seq<Span>)
    requires LabelsFollowWebsite(c) && spans != []
    ensures SpanSteps(c, spans).labels.Some? ==>
      SpanSteps(c, spans).labels == Some(LabelsOf(SpanText(spans[|spans| - 1].text)))
  {
    var before := SpanSteps(c, spans[..|spans| - 1]);
    SpanStepsSnoc(c, spans);
    SpanStepsFollow(c, spans[..|spans| - 1]);
    SpanStepLabels(before, spans[|spans| - 1]);
  }

  /** A record has labels exactly when it has a website; they are then the
      labels of the block's last span, recomputed after every span once the
      website was known, and each is a non-empty trimmed label. */
  lemma CollegeLabels(p: Block)
    ensures var c := CollegeOf(p);
      (c.labels.Some? <==> c.website.Some?)
      && (c.labels.Some? ==> p.spans != [] && c.labels.value == LabelsOf(SpanText(p.spans[|p.spans| - 1].text)))
      && (c.labels.Some? ==> forall i :: 0 <= i < |c.labels.value| ==> IsLabel(c.labels.value[i]))
  {
    SpanStepsFollow(NewCollege(p), p.spans);
    if p.spans != [] {
      SpanStepsLabels(NewCollege(p), p.spans);
    }
  }
}
