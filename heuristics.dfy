/**
 * The field heuristics of the private-college scraper: how the name, the
 * phone number, the e-mail address, the website and the labels of a
 * college are read off the text of the page and the targets of its links.
 */
module Heuristics {
  import opened Wrappers
  import opened Text

  /** No whitespace at either end. */
  predicate IsTrimmed(s: string) {
    s != [] ==> !IsSpace(s[0]) && !IsSpace(s[|s| - 1])
  }

  /** No upper-case letter anywhere. */
  predicate IsLowerCase(s: string) {
    forall k :: 0 <= k < |s| ==> !IsUpper(s[k])
  }

  /** A label as the scraper stores it: non-empty, trimmed, and free of the
      full stops it deletes and of the commas it splits on. */
  predicate IsLabel(l: string) {
    l != [] && IsTrimmed(l) && '.' !in l && ',' !in l
  }

  /** The college name from the text of the block's first `<strong>`
      element, lower-cased and trimmed; no `<strong>` gives no name (the
      lookup fails and the handler stores `None`). `unidecode` is taken as
      the identity. */
  function NameOf(strong: Option<string>): (name: Option<string>)
    ensures name.Some? <==> strong.Some?
    ensures name.Some? ==> IsTrimmed(name.value) && IsLowerCase(name.value)
  {
    match strong
    case None => None
    case Some(t) => Some(Strip(Lower(t)))
  }

  /** The text of a span as the scraper examines it: trimmed, then
      lower-cased. */
  function SpanText(text: string): (t: string)
    ensures IsTrimmed(t) && IsLowerCase(t)
    ensures |t| <= |text|
  {
    LowerKeepsTrim(Strip(text));
    Lower(Strip(text))
  }

  lemma LowerKeepsTrim(s: string)
    requires IsTrimmed(s)
    ensures IsTrimmed(Lower(s)) && IsLowerCase(Lower(s))
  {
    var t := Lower(s);
    if t != [] {
      assert IsSpace(t[0]) == IsSpace(s[0]);
      assert IsSpace(t[|t| - 1]) == IsSpace(s[|s| - 1]);
    }
  }

  /** A line that gives the phone number starts with `phone`. */
  predicate IsPhoneLine(t: string) {
    StartsWith(t, "phone")
  }

  /** A link target that gives the e-mail address holds an `@`. */
  predicate IsEmailHref(href: string) {
    Contains(href, "@")
  }

  /** The e-mail address in a link target: the trimmed text after its last
      colon (Python's `href.split(':')[-1].strip()`), so a `mailto:`
      prefix is dropped. */
  function EmailOf(href: string): (email: string)
    ensures exists j :: AfterLast(href, ':', j) && email == Strip(href[j..])
    ensures IsTrimmed(email) && ':' !in email
  {
    LastPieceIsSuffix(href, ':');
    var t := LastPiece(href, ':');
    var j := |href| - |t|;
    assert t == href[j..];
    assert AfterLast(href, ':', j);
    Strip(t)
  }

  /** `s[j..]` is the text after the last `sep` of `s`: it holds no `sep`,
      and `sep` comes right before it unless it is all of `s`. */
  ghost predicate AfterLast(s: string, sep: char, j: int) {
    0 <= j <= |s| && sep !in s[j..] && (j > 0 ==> s[j - 1] == sep)
  }

  /** A link target that gives the website holds `http` or `www.`. */
  predicate IsWebsiteHref(href: string) {
    Contains(href, "http") || Contains(href, "www.")
  }

  /** The website in a link target: the trimmed target. It is never empty
      for a target that passes `IsWebsiteHref`. */
  function WebsiteOf(href: string): (site: string)
    ensures IsTrimmed(site)
    ensures IsWebsiteHref(href) ==> site != []
  {
    WebsiteHasText(href);
    Strip(href)
  }

  lemma WebsiteHasText(href: string)
    ensures IsWebsiteHref(href) ==> !AllSpace(href)
  {
    if Contains(href, "http") {
      var i :| 0 <= i <= |href| && StartsWith(href[i..], "http");
      assert href[i..][..4] == "http";
      assert href[i] == 'h';
    } else if Contains(href, "www.") {
      var i :| 0 <= i <= |href| && StartsWith(href[i..], "www.");
      assert href[i..][..4] == "www.";
      assert href[i] == 'w';
    }
  }

  /** The labels in a line of text: full stops deleted, split on commas,
      each piece trimmed and the empty pieces dropped. */
  function LabelsOf(t: string): (labels: seq<string>)
    ensures forall i :: 0 <= i < |labels| ==> IsLabel(labels[i])
  {
    var pieces := Split(RemoveAll(t, '.'), ',');
    PiecesHaveNoStop(RemoveAll(t, '.'), pieces);
    CleanLabels(pieces)
  }

  lemma PiecesHaveNoStop(s: string, pieces: seq<string>)
    requires '.' !in s && pieces == Split(s, ',')
    ensures forall i :: 0 <= i < |pieces| ==> '.' !in pieces[i] && ',' !in pieces[i]
  {
    SplitMissing(s, ',', '.');
  }

  /** The trimmed pieces that are not empty, in order. */
  function CleanLabels(pieces: seq<string>): (labels: seq<string>)
    requires forall i :: 0 <= i < |pieces| ==> '.' !in pieces[i] && ',' !in pieces[i]
    ensures |labels| <= |pieces|
    ensures forall i :: 0 <= i < |labels| ==> IsLabel(labels[i])
  {
    if pieces == [] then []
    else
      var l := Strip(pieces[0]);
      var rest := CleanLabels(pieces[1..]);
      if l == [] then rest else [l] + rest
  }

  /** One piece gives its trimmed text as a label, or nothing when it is
      blank. */
  lemma CleanLabelsSingle(p: string)
    requires '.' !in p && ',' !in p
    ensures CleanLabels([p]) == if Strip(p) == [] then [] else [Strip(p)]
  {
    assert [p][1..] == [];
  }

  /** Pieces are cleaned one by one, in order: cleaning a concatenation
      cleans each part. */
  lemma {:induction false} CleanLabelsAppend(a: seq<string>, b: seq<string>)
    requires forall i :: 0 <= i < |a| ==> '.' !in a[i] && ',' !in a[i]
    requires forall i :: 0 <= i < |b| ==> '.' !in b[i] && ',' !in b[i]
    ensures CleanLabels(a + b) == CleanLabels(a) + CleanLabels(b)
  {
    if a == [] {
      assert a + b == b;
    } else {
      var t := a[1..];
      assert a == [a[0]] + t;
      assert a + b == [a[0]] + (t + b);
      CleanLabelsPrepend(a[0], t + b);
      CleanLabelsPrepend(a[0], t);
      CleanLabelsAppend(t, b);
      var l := Strip(a[0]);
      SeqAssoc(if l == [] then [] else [l], CleanLabels(t), CleanLabels(b));
    }
  }

  lemma CleanLabelsPrepend(p: string, rest: seq<string>)
    requires '.' !in p && ',' !in p
    requires forall i :: 0 <= i < |rest| ==> '.' !in rest[i] && ',' !in rest[i]
    ensures forall i :: 0 <= i < |[p] + rest| ==> '.' !in ([p] + rest)[i] && ',' !in ([p] + rest)[i]
    ensures CleanLabels([p] + rest) == (if Strip(p) == [] then [] else [Strip(p)]) + CleanLabels(rest)
  {
    assert ([p] + rest)[0] == p && ([p] + rest)[1..] == rest;
  }


  /** Labels written out as a comma-separated line are read back as they
      were. */
  lemma LabelsRoundTrip(labels: seq<string>)
    requires forall i :: 0 <= i < |labels| ==> IsLabel(labels[i])
    ensures LabelsOf(Join(labels, ',')) == labels
  {
    var line := Join(labels, ',');
    JoinHasNoStop(labels);
    assert RemoveAll(line, '.') == line;
    if labels == [] {
      assert Split(line, ',') == [[]];
      assert CleanLabels([[]]) == [];
    } else {
      SplitJoin(labels, ',');
      CleanLabelsKeeps(labels);
    }
  }

  lemma {:induction false} JoinHasNoStop(labels: seq<string>)
    requires forall i :: 0 <= i < |labels| ==> '.' !in labels[i]
    ensures '.' !in Join(labels, ',')
  {
    if |labels| > 1 {
      JoinHasNoStop(labels[1..]);
      assert Join(labels, ',') == labels[0] + [','] + Join(labels[1..], ',');
    }
  }

  lemma {:induction false} CleanLabelsKeeps(labels: seq<string>)
    requires forall i :: 0 <= i < |labels| ==> IsLabel(labels[i])
    ensures forall i :: 0 <= i < |labels| ==> '.' !in labels[i] && ',' !in labels[i]
    ensures CleanLabels(labels) == labels
  {
    assert forall i :: 0 <= i < |labels| ==> '.' !in labels[i] && ',' !in labels[i] by {
      forall i | 0 <= i < |labels| ensures '.' !in labels[i] && ',' !in labels[i] {
        assert IsLabel(labels[i]);
      }
    }
    if labels != [] {
      assert IsLabel(labels[0]);
      StripTrimmed(labels[0]);
      CleanLabelsKeeps(labels[1..]);
      assert CleanLabels(labels) == [labels[0]] + CleanLabels(labels[1..]);
      assert labels == [labels[0]] + labels[1..];
    }
  }
}
