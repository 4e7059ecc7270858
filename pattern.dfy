/**
 * A backtracking matcher for the fragment of Python's `re` that the scraper
 * uses to recognise a street address: character classes repeated one or
 * more (`+`) or zero or more (`*`) times, searched for anywhere in the text
 * (`re.search`).
 */
module Pattern {
  import opened Text

  datatype CharClass = Digit | Space | Word | Literal(c: char)

  predicate InClass(cc: CharClass, c: char) {
    match cc
    case Digit => IsDigit(c)
    case Space => IsSpace(c)
    case Word => IsWordChar(c)
    case Literal(l) => c == l
  }

  datatype Piece = Plus(cc: CharClass) | Star(cc: CharClass)

  /** Whether `pat` matches some prefix of `s[i..]`; a trailing part of the
      text is never required to match, as with `re.search`. */
  predicate MatchAt(pat: seq<Piece>, s: string, i: nat)
    requires i <= |s|
    decreases |s| - i, |pat|
  {
    if pat == [] then true
    else match pat[0]
      case Plus(cc) =>
        i < |s| && InClass(cc, s[i]) && MatchAt([Star(cc)] + pat[1..], s, i + 1)
      case Star(cc) =>
        (i < |s| && InClass(cc, s[i]) && MatchAt(pat, s, i + 1)) || MatchAt(pat[1..], s, i)
  }

  /** `re.search(pat, s) is not None`. */
  predicate Search(pat: seq<Piece>, s: string) {
    exists i | 0 <= i <= |s| :: MatchAt(pat, s, i)
  }

  /** The regular expression `\s*\d+\s+\w+\s+\w+\,*\s+`, built from its
      tails: `AfterN` is the pattern without its first `N` pieces. */
  const After7: seq<Piece> := [Plus(Space)]
  const After6: seq<Piece> := [Star(Literal(','))] + After7
  const After5: seq<Piece> := [Plus(Word)] + After6
  const After4: seq<Piece> := [Plus(Space)] + After5
  const After3: seq<Piece> := [Plus(Word)] + After4
  const After2: seq<Piece> := [Plus(Space)] + After3
  const After1: seq<Piece> := [Plus(Digit)] + After2
  const AddressPattern: seq<Piece> := [Star(Space)] + After1

  /** The test the scraper applies to decide that a line is an address. */
  predicate LooksLikeAddress(s: string) {
    Search(AddressPattern, s)
  }

  ghost predicate AllIn(cc: CharClass, s: string, i: nat, j: nat)
    requires i <= j <= |s|
  {
    forall k :: i <= k < j ==> InClass(cc, s[k])
  }

  /** `c*` followed by `rest` matches at `i` when `s[i..j]` is a run of `c`
      and `rest` matches at `j`. */
  lemma {:induction false} StarRun(cc: CharClass, rest: seq<Piece>, s: string, i: nat, j: nat)
    requires i <= j <= |s| && AllIn(cc, s, i, j) && MatchAt(rest, s, j)
    ensures MatchAt([Star(cc)] + rest, s, i)
    decreases j - i
  {
    if i == j {
      assert ([Star(cc)] + rest)[1..] == rest;
    } else {
      StarRun(cc, rest, s, i + 1, j);
    }
  }

  /** `c+` followed by `rest` matches at `i` when `s[i..j]` is a non-empty
      run of `c` and `rest` matches at `j`. */
  lemma PlusRun(cc: CharClass, rest: seq<Piece>, s: string, i: nat, j: nat)
    requires i < j <= |s| && AllIn(cc, s, i, j) && MatchAt(rest, s, j)
    ensures MatchAt([Plus(cc)] + rest, s, i)
  {
    StarRun(cc, rest, s, i + 1, j);
    assert ([Plus(cc)] + rest)[1..] == rest;
  }

  /** `s[a..b]` digits, `s[b..c]` whitespace, `s[c..d]` a word, `s[d..e]`
      whitespace, `s[e..f]` a word, `s[f..g]` commas and `s[g]` whitespace:
      a number, whitespace, a word, whitespace, a word, optional commas and
      one more whitespace character. */
  ghost predicate AddressShaped(s: string, a: nat, b: nat, c: nat, d: nat, e: nat, f: nat, g: nat) {
    a < b < c < d < e < f <= g < |s|
    && AllIn(Digit, s, a, b) && AllIn(Space, s, b, c) && AllIn(Word, s, c, d)
    && AllIn(Space, s, d, e) && AllIn(Word, s, e, f) && AllIn(Literal(','), s, f, g)
    && IsSpace(s[g])
  }

  /** A line with that shape somewhere in it looks like an address. */
  lemma AddressShape(s: string, a: nat, b: nat, c: nat, d: nat, e: nat, f: nat, g: nat)
    requires AddressShaped(s, a, b, c, d, e, f, g)
    ensures LooksLikeAddress(s)
  {
    assert MatchAt([], s, g + 1);
    PlusRun(Space, [], s, g, g + 1);
    assert After7 == [Plus(Space)] + [];
    StarRun(Literal(','), After7, s, f, g);
    PlusRun(Word, After6, s, e, f);
    PlusRun(Space, After5, s, d, e);
    PlusRun(Word, After4, s, c, d);
    PlusRun(Space, After3, s, b, c);
    PlusRun(Digit, After2, s, a, b);
    StarRun(Space, After1, s, a, a);
    assert MatchAt(AddressPattern, s, a);
  }

  /** `c*` followed by `rest` matching at `i` means `rest` matches at some
      `j` after a run of `c`. */
  lemma {:induction false} StarSplit(cc: CharClass, rest: seq<Piece>, s: string, i: nat) returns (j: nat)
    requires i <= |s| && MatchAt([Star(cc)] + rest, s, i)
    ensures i <= j <= |s| && AllIn(cc, s, i, j) && MatchAt(rest, s, j)
    decreases |s| - i
  {
    var pat := [Star(cc)] + rest;
    assert pat[1..] == rest;
    if MatchAt(rest, s, i) {
      j := i;
    } else {
      j := StarSplit(cc, rest, s, i + 1);
    }
  }

  /** `c+` followed by `rest` matching at `i` means `rest` matches at some
      `j` after a non-empty run of `c`. */
  lemma PlusSplit(cc: CharClass, rest: seq<Piece>, s: string, i: nat) returns (j: nat)
    requires i <= |s| && MatchAt([Plus(cc)] + rest, s, i)
    ensures i < j <= |s| && AllIn(cc, s, i, j) && MatchAt(rest, s, j)
  {
    assert ([Plus(cc)] + rest)[1..] == rest;
    j := StarSplit(cc, rest, s, i + 1);
  }

  /** Every line that looks like an address has that shape, so the shape
      is exactly what the regular expression accepts. */
  lemma AddressHasShape(s: string)
    requires LooksLikeAddress(s)
    ensures exists a: nat, b: nat, c: nat, d: nat, e: nat, f: nat, g: nat :: AddressShaped(s, a, b, c, d, e, f, g)
  {
    var i: nat :| i <= |s| && MatchAt(AddressPattern, s, i);
    var a := StarSplit(Space, After1, s, i);
    var b := PlusSplit(Digit, After2, s, a);
    var c := PlusSplit(Space, After3, s, b);
    var d := PlusSplit(Word, After4, s, c);
    var e := PlusSplit(Space, After5, s, d);
    var f := PlusSplit(Word, After6, s, e);
    var g := StarSplit(Literal(','), After7, s, f);
    assert After7 == [Plus(Space)] + [];
    var h := PlusSplit(Space, [], s, g);
    assert AddressShaped(s, a, b, c, d, e, f, g);
  }
}
