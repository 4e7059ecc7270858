/**
 * The few Python string operations the scraper applies to text taken from
 * the page: `str.isspace` and `str.strip`, `str.lower`, `str.isdigit`, the
 * `in` and `startswith` tests, `str.split` with a one-character separator
 * and `str.replace` with an empty replacement.
 */
module Text {
  import opened Wrappers

  /** Python's `str.isspace` on one character (the Unicode whitespace set). */
  predicate IsSpace(c: char) {
    c == ' ' || ('\t' <= c <= '\r') || ('\U{1c}' <= c <= '\U{1f}')
    || c == '\U{85}' || c == '\U{a0}' || c == '\U{1680}'
    || ('\U{2000}' <= c <= '\U{200a}') || c == '\U{2028}' || c == '\U{2029}'
    || c == '\U{202f}' || c == '\U{205f}' || c == '\U{3000}'
  }

  /** `str.isdigit`, restricted to the ASCII digits. */
  predicate IsDigit(c: char) {
    '0' <= c <= '9'
  }

  predicate IsUpper(c: char) {
    'A' <= c <= 'Z'
  }

  /** The regular-expression class `\w`, restricted to ASCII. */
  predicate IsWordChar(c: char) {
    IsDigit(c) || IsUpper(c) || ('a' <= c <= 'z') || c == '_'
  }

  ghost predicate AllSpace(s: string) {
    forall k :: 0 <= k < |s| ==> IsSpace(s[k])
  }

  /** One character of `str.lower`: an upper-case letter becomes the
      lower-case letter 32 code points above it. */
  function LowerChar(c: char): (d: char)
    ensures !IsUpper(d)
    ensures IsUpper(c) ==> d as int == c as int + 32
    ensures !IsUpper(c) ==> d == c
    ensures IsSpace(d) <==> IsSpace(c)
  {
    if IsUpper(c) then (c as int + 32) as char else c
  }

  /** `str.lower`, on the ASCII letters only: every upper-case letter is
      replaced by its lower-case letter, and the length and every other
      character are kept. */
  function Lower(s: string): (r: string)
    ensures |r| == |s|
    ensures forall k :: 0 <= k < |r| ==> !IsUpper(r[k])
    ensures forall k :: 0 <= k < |s| && IsUpper(s[k]) ==> r[k] as int == s[k] as int + 32
    ensures forall k :: 0 <= k < |s| && !IsUpper(s[k]) ==> r[k] == s[k]
    ensures forall k :: 0 <= k < |s| ==> (IsSpace(r[k]) <==> IsSpace(s[k]))
  {
    seq(|s|, k requires 0 <= k < |s| => LowerChar(s[k]))
  }

  /** The first position at or after `i` that does not hold whitespace
      (the length when there is none). */
  function SkipSpaces(s: string, i: nat): (j: nat)
    requires i <= |s|
    ensures i <= j <= |s|
    ensures forall k :: i <= k < j ==> IsSpace(s[k])
    ensures j < |s| ==> !IsSpace(s[j])
    decreases |s| - i
  {
    if i < |s| && IsSpace(s[i]) then SkipSpaces(s, i + 1) else i
  }

  /** The end of `s[lo..hi]` once its trailing whitespace is dropped. */
  function TrimEnd(s: string, lo: nat, hi: nat): (e: nat)
    requires lo <= hi <= |s|
    ensures lo <= e <= hi
    ensures forall k :: e <= k < hi ==> IsSpace(s[k])
    ensures e > lo ==> !IsSpace(s[e - 1])
    decreases hi - lo
  {
    if hi > lo && IsSpace(s[hi - 1]) then TrimEnd(s, lo, hi - 1) else hi
  }

  /** `str.strip()`: the slice of `s` between its leading and its trailing
      whitespace; empty exactly when `s` is all whitespace. */
  function Strip(s: string): (r: string)
    ensures exists i :: SpaceAround(s, i, r)
    ensures r == [] <==> AllSpace(s)
    ensures r != [] ==> !IsSpace(r[0]) && !IsSpace(r[|r| - 1])
    ensures forall c :: c in r ==> c in s
  {
    var i := SkipSpaces(s, 0);
    var j := TrimEnd(s, i, |s|);
    SliceMembers(s, i, j);
    assert i < |s| ==> !IsSpace(s[i]);
    assert i == j ==> i == |s|;
    assert SpaceAround(s, i, s[i..j]);
    s[i..j]
  }

  /** `r` sits at position `i` of `s` with only whitespace around it. */
  ghost predicate SpaceAround(s: string, i: int, r: string) {
    0 <= i <= |s| - |r| && r == s[i..i + |r|]
    && (forall k :: 0 <= k < i ==> IsSpace(s[k]))
    && (forall k :: i + |r| <= k < |s| ==> IsSpace(s[k]))
  }

  lemma SliceMembers(s: string, i: nat, j: nat)
    requires i <= j <= |s|
    ensures forall c :: c in s[i..j] ==> c in s
  {
    forall c | c in s[i..j] ensures c in s {
      var k :| 0 <= k < j - i && s[i..j][k] == c;
      assert s[i + k] == c;
    }
  }

  /** Stripping a string that is already trimmed changes nothing. */
  lemma StripTrimmed(s: string)
    requires s != [] ==> !IsSpace(s[0]) && !IsSpace(s[|s| - 1])
    ensures Strip(s) == s
  {
  }

  /** The digit characters of `s`, in order: the join of the digits in a
      Python list comprehension. */
  function Digits(s: string): (r: string)
    ensures |r| <= |s|
    ensures forall k :: 0 <= k < |r| ==> IsDigit(r[k])
    ensures (forall k :: 0 <= k < |s| ==> IsDigit(s[k])) ==> r == s
    ensures (forall k :: 0 <= k < |s| ==> !IsDigit(s[k])) ==> r == []
  {
    if s == [] then []
    else (if IsDigit(s[0]) then [s[0]] else []) + Digits(s[1..])
  }

  /** `Digits` keeps order: the digits of a concatenation are the
      concatenation of the digits of its parts. */
  lemma {:induction false} DigitsAppend(a: string, b: string)
    ensures Digits(a + b) == Digits(a) + Digits(b)
  {
    if a == [] {
      assert a + b == b;
    } else {
      var head := if IsDigit(a[0]) then [a[0]] else [];
      assert (a + b)[0] == a[0] && (a + b)[1..] == a[1..] + b;
      assert Digits(a + b) == head + Digits(a[1..] + b);
      DigitsAppend(a[1..], b);
      assert Digits(a) == head + Digits(a[1..]);
      SeqAssoc(head, Digits(a[1..]), Digits(b));
    }
  }

  /** Python's `sub in s` on strings. */
  predicate Contains(s: string, sub: string) {
    exists i | 0 <= i <= |s| :: StartsWith(s[i..], sub)
  }

  /** Python's `s.startswith(prefix)`. */
  predicate StartsWith(s: string, prefix: string) {
    |prefix| <= |s| && s[..|prefix|] == prefix
  }

  /** Index of the first occurrence of `c` in `s`. */
  function IndexOf(s: string, c: char): (i: nat)
    requires c in s
    ensures i < |s| && s[i] == c && c !in s[..i]
  {
    if s[0] == c then 0 else 1 + IndexOf(s[1..], c)
  }

  /** Python's `sep.join(parts)` for a one-character separator. */
  function Join(parts: seq<string>, sep: char): string {
    if parts == [] then []
    else if |parts| == 1 then parts[0]
    else parts[0] + [sep] + Join(parts[1..], sep)
  }

  /** Python's `s.split(sep)` for a one-character separator: the pieces
      between the separators, empty pieces included, so there is always at
      least one (`JoinSplit` and `SplitJoin` relate it to `Join`). */
  function Split(s: string, sep: char): (parts: seq<string>)
    ensures parts != []
    ensures forall i :: 0 <= i < |parts| ==> sep !in parts[i]
    decreases |s|
  {
    if sep !in s then [s]
    else
      var i := IndexOf(s, sep);
      [s[..i]] + Split(s[i + 1..], sep)
  }

  /** A character missing from `s` is missing from every piece of it. */
  lemma {:induction false} SplitMissing(s: string, sep: char, x: char)
    requires x !in s
    ensures forall i :: 0 <= i < |Split(s, sep)| ==> x !in Split(s, sep)[i]
    decreases |s|
  {
    if sep in s {
      var i := IndexOf(s, sep);
      SplitUnfold(s, sep);
      assert x !in s[..i] && x !in s[i + 1..];
      SplitMissing(s[i + 1..], sep, x);
    }
  }

  /** The last piece of `s.split(sep)`, Python's `s.split(sep)[-1]`. */
  function LastPiece(s: string, sep: char): string {
    var parts := Split(s, sep);
    parts[|parts| - 1]
  }

  /** The last piece of a split is the text after the last separator (all
      of `s` when there is none). */
  lemma {:induction false} LastPieceIsSuffix(s: string, sep: char)
    ensures var t := LastPiece(s, sep);
      sep !in t && |t| <= |s| && t == s[|s| - |t|..] && (|t| < |s| ==> s[|s| - |t| - 1] == sep)
    decreases |s|
  {
    if sep in s {
      var i := IndexOf(s, sep);
      var u := s[i + 1..];
      LastPieceIsSuffix(u, sep);
      LastPieceSkips(s, sep);
      var t := LastPiece(u, sep);
      SuffixOfSuffix(s, i + 1, |u| - |t|);
      if |t| == |u| {
        assert s[|s| - |t| - 1] == s[i];
      } else {
        assert s[|s| - |t| - 1] == u[|u| - |t| - 1];
      }
    } else {
      assert Split(s, sep) == [s];
    }
  }

  lemma LastPieceSkips(s: string, sep: char)
    requires sep in s
    ensures LastPiece(s, sep) == LastPiece(s[IndexOf(s, sep) + 1..], sep)
  {
    SplitUnfold(s, sep);
  }

  /** The pieces of a text holding the separator: the text before its
      first occurrence, then the pieces of the text after it. */
  lemma SplitUnfold(s: string, sep: char)
    requires sep in s
    ensures Split(s, sep) == [s[..IndexOf(s, sep)]] + Split(s[IndexOf(s, sep) + 1..], sep)
  {
  }

  lemma SuffixOfSuffix(s: string, i: nat, j: nat)
    requires i + j <= |s|
    ensures s[i..][j..] == s[i + j..]
  {
  }

  /** Joining the pieces of `s.split(sep)` with `sep` gives back `s`. */
  lemma {:induction false} JoinSplit(s: string, sep: char)
    ensures Join(Split(s, sep), sep) == s
    decreases |s|
  {
    if sep in s {
      var i := IndexOf(s, sep);
      var rest := Split(s[i + 1..], sep);
      JoinSplit(s[i + 1..], sep);
      assert Split(s, sep) == [s[..i]] + rest;
      assert Join([s[..i]] + rest, sep) == s[..i] + [sep] + Join(rest, sep);
      assert s == s[..i] + [sep] + s[i + 1..];
    }
  }

  /** The first separator in `a + [sep] + b` is the one after `a` when `a`
      holds none. */
  lemma {:induction false} IndexOfAfter(a: string, sep: char, b: string)
    requires sep !in a
    ensures IndexOf(a + [sep] + b, sep) == |a|
  {
    if a != [] {
      assert (a + [sep] + b)[1..] == a[1..] + [sep] + b;
      IndexOfAfter(a[1..], sep, b);
    }
  }

  /** `s.split(sep)` undoes `sep.join(parts)` when no part holds `sep`. */
  lemma {:induction false} SplitJoin(parts: seq<string>, sep: char)
    requires parts != []
    requires forall i :: 0 <= i < |parts| ==> sep !in parts[i]
    ensures Split(Join(parts, sep), sep) == parts
    decreases |parts|
  {
    if |parts| > 1 {
      var s := Join(parts, sep);
      var rest := Join(parts[1..], sep);
      assert s == parts[0] + [sep] + rest;
      assert s[|parts[0]|] == sep;
      IndexOfAfter(parts[0], sep, rest);
      assert s[..|parts[0]|] == parts[0];
      assert s[|parts[0]| + 1..] == rest;
      SplitJoin(parts[1..], sep);
    } else {
      assert Join(parts, sep) == parts[0];
    }
  }

  /** Python's `s.replace(c, '')`: every occurrence of `c` removed. */
  function RemoveAll(s: string, c: char): (r: string)
    ensures c !in r
    ensures forall x :: x in r ==> x in s
    ensures c !in s ==> r == s
  {
    if s == [] then []
    else
      var rest := RemoveAll(s[1..], c);
      assert forall x :: x in rest ==> x in s by {
        forall x | x in rest ensures x in s {
          assert x in s[1..];
        }
      }
      assert c !in s ==> s == [s[0]] + s[1..];
      (if s[0] == c then [] else [s[0]]) + rest
  }

  /** `RemoveAll` works character by character, keeping order: removing
      from a concatenation removes from each part. */
  lemma {:induction false} RemoveAllAppend(a: string, b: string, c: char)
    ensures RemoveAll(a + b, c) == RemoveAll(a, c) + RemoveAll(b, c)
  {
    if a == [] {
      assert a + b == b;
    } else {
      var t := a[1..];
      assert a == [a[0]] + t;
      assert a + b == [a[0]] + (t + b);
      RemoveAllPrepend(a[0], t + b, c);
      RemoveAllPrepend(a[0], t, c);
      RemoveAllAppend(t, b, c);
      SeqAssoc(if a[0] == c then [] else [a[0]], RemoveAll(t, c), RemoveAll(b, c));
    }
  }

  lemma RemoveAllPrepend(x: char, t: string, c: char)
    ensures RemoveAll([x] + t, c) == (if x == c then [] else [x]) + RemoveAll(t, c)
  {
    assert ([x] + t)[0] == x && ([x] + t)[1..] == t;
  }

  /** On a single character, `RemoveAll` deletes `c` and keeps anything
      else. */
  lemma RemoveAllChar(x: char, c: char)
    ensures RemoveAll([x], c) == if x == c then [] else [x]
  {
    assert [x][1..] == [];
  }
}
