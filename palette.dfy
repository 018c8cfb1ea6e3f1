/** The glyph palette of one subject (concrete.py:48-52): the subject's letters
    without spaces, sorted from lightest to densest, after two blanks. */
module Palette {
  import opened Types

  /** The letters from visually lightest to densest (concrete.py:49). */
  const Density: string := "czrsivtlxfeajonuykpwhqbdmg"

  /** The two blank entries that start every palette (concrete.py:52). */
  const Blanks: string := "  "

  /** Number of occurrences of `c` in `s`. */
  function Count(s: string, c: char): (k: nat)
    ensures k <= |s|
    ensures k == 0 <==> c !in s
  {
    if s == [] then 0 else (if s[0] == c then 1 else 0) + Count(s[1..], c)
  }

  /** `s.replace(' ', '')`: the characters of `s` other than spaces, in order
      (concrete.py:48). */
  function StripSpaces(s: string): (r: string)
    ensures ' ' !in r
    ensures |r| == |s| - Count(s, ' ')
    ensures forall c :: c != ' ' ==> multiset(r)[c] == multiset(s)[c]
    ensures forall c :: c in r <==> c in s && c != ' '
  {
    if s == [] then []
    else
      assert s == [s[0]] + s[1..];
      (if s[0] == ' ' then [] else [s[0]]) + StripSpaces(s[1..])
  }

  /** `s.index(c)`: the first position of `c` in `s`, or None where Python raises. */
  function IndexOf(s: string, c: char): (r: Option<nat>)
    ensures r.Some? <==> c in s
    ensures r.Some? ==> r.value < |s| && s[r.value] == c && c !in s[..r.value]
  {
    if s == [] then None
    else if s[0] == c then Some(0)
    else
      match IndexOf(s[1..], c)
      case None => None
      case Some(k) =>
        assert s[..k + 1] == [s[0]] + s[1..][..k];
        Some(k + 1)
  }

  /** The sort key of a letter: its index in the density order `order`. */
  function Rank(order: string, c: char): (k: nat)
    requires c in order
    ensures k < |order| && order[k] == c
  {
    IndexOf(order, c).value
  }

  /** Every character of `s` has a rank in `order`. */
  predicate Ranked(order: string, s: string)
  {
    forall i :: 0 <= i < |s| ==> s[i] in order
  }

  /** `s` is ordered by non-decreasing rank in `order`. */
  predicate SortedByRank(order: string, s: string)
  {
    Ranked(order, s) && forall i, j :: 0 <= i < j < |s| ==> Rank(order, s[i]) <= Rank(order, s[j])
  }

  /** Putting a letter no denser than any letter of a sorted `t` in front of it
      keeps it sorted. */
  lemma SortedCons(order: string, x: char, t: string)
    requires x in order && SortedByRank(order, t)
    requires forall y :: y in t ==> Rank(order, x) <= Rank(order, y)
    ensures SortedByRank(order, [x] + t)
  {
    var r := [x] + t;
    forall i, j | 0 <= i < j < |r|
      ensures Rank(order, r[i]) <= Rank(order, r[j])
    {
      assert r[j] == t[j - 1];
      if i > 0 { assert r[i] == t[i - 1]; }
    }
  }

  /** Places `c` before the first letter of `s` that is not lighter than it. */
  function Insert(order: string, c: char, s: string): (r: string)
    requires c in order && SortedByRank(order, s)
    ensures SortedByRank(order, r)
    ensures multiset(r) == multiset(s) + multiset{c}
    ensures forall x :: x in r <==> x == c || x in s
  {
    if s == [] || Rank(order, c) <= Rank(order, s[0]) then
      forall y | y in s
        ensures Rank(order, c) <= Rank(order, y)
      {
        SortedHead(order, s, y);
      }
      SortedCons(order, c, s);
      [c] + s
    else
      SortedTail(order, s);
      var t := Insert(order, c, s[1..]);
      forall y | y in t
        ensures Rank(order, s[0]) <= Rank(order, y)
      {
        if y != c {
          assert y in s;
          SortedHead(order, s, y);
        }
      }
      SortedCons(order, s[0], t);
      assert s == [s[0]] + s[1..];
      [s[0]] + t
  }

  /** Python's stable `sorted(letters, key=rank)`, as an insertion sort. */
  function SortByRank(order: string, s: string): (r: string)
    requires Ranked(order, s)
    ensures SortedByRank(order, r)
    ensures multiset(r) == multiset(s)
    ensures |r| == |s|
  {
    if s == [] then []
    else
      assert s == [s[0]] + s[1..];
      Insert(order, s[0], SortByRank(order, s[1..]))
  }

  /** The first character of `s`, in order, that has no rank in `order`. */
  function FirstUnranked(order: string, s: string): (r: Option<char>)
    ensures r.None? <==> Ranked(order, s)
    ensures r.Some? ==> exists k :: 0 <= k < |s| && s[k] == r.value && Ranked(order, s[..k]) && r.value !in order
  {
    if s == [] then None
    else if s[0] !in order then
      assert s[..0] == [];
      Some(s[0])
    else
      match FirstUnranked(order, s[1..])
      case None => None
      case Some(c) =>
        var k :| 0 <= k < |s[1..]| && s[1..][k] == c && Ranked(order, s[1..][..k]) && c !in order;
        assert s[..k + 1] == [s[0]] + s[1..][..k];
        Some(c)
  }

  /** The palette of a subject name for the density order `order`
      (concrete.py:48-52; the program passes `Density`). The key function of
      `sorted` receives one letter at a time, so the key is its rank. A non-space
      letter outside the order (upper case, a hyphen) makes `alphabet.index`
      raise, before the `try` of the retry loop. */
  function BuildPalette(order: string, subject: string): (r: Result<string>)
    ensures r.Ok? <==> forall c :: c in subject && c != ' ' ==> c in order
    ensures r.Err? ==> r.error.UnknownLetter? && r.error.letter in subject
                       && r.error.letter != ' ' && r.error.letter !in order
    ensures r.Ok? ==> |r.value| == 2 + |subject| - Count(subject, ' ')
    ensures r.Ok? ==> r.value[..2] == Blanks
    ensures r.Ok? ==> SortedByRank(order, r.value[2..])
    ensures r.Ok? ==> forall c :: c != ' ' ==> multiset(r.value[2..])[c] == multiset(subject)[c]
    ensures r.Ok? ==> multiset(r.value[2..])[' '] == 0
  {
    var letters := StripSpaces(subject);
    match FirstUnranked(order, letters)
    case Some(c) => Err(UnknownLetter(c))
    case None =>
      var p := Blanks + SortByRank(order, letters);
      assert p[2..] == SortByRank(order, letters);
      Ok(p)
  }

  /** A letter is the entry of `order` at its rank, so equal ranks mean equal
      letters. */
  lemma RankInjective(order: string, a: char, b: char)
    requires a in order && b in order && Rank(order, a) == Rank(order, b)
    ensures a == b
  {
  }

  /** The first letter of a sorted string is a lightest one. */
  lemma SortedHead(order: string, a: string, x: char)
    requires SortedByRank(order, a) && x in a
    ensures Rank(order, a[0]) <= Rank(order, x)
  {
    var k :| 0 <= k < |a| && a[k] == x;
    if k > 0 { assert Rank(order, a[0]) <= Rank(order, a[k]); }
  }

  /** What follows the first letter of a sorted string is sorted. */
  lemma SortedTail(order: string, a: string)
    requires SortedByRank(order, a) && a != []
    ensures SortedByRank(order, a[1..])
  {
    var t := a[1..];
    forall i, j | 0 <= i < j < |t|
      ensures Rank(order, t[i]) <= Rank(order, t[j])
    {
      assert t[i] == a[i + 1] && t[j] == a[j + 1];
    }
  }

  /** A rank-sorted arrangement of a multiset of letters is unique. Equal ranks
      mean equal letters, so whatever algorithm `sorted` uses, and whether or not
      it is stable, its result is the one `SortByRank` gives. */
  lemma {:induction false} SortedUnique(order: string, a: string, b: string)
    requires SortedByRank(order, a) && SortedByRank(order, b) && multiset(a) == multiset(b)
    ensures a == b
  {
    assert |a| == |multiset(a)| == |multiset(b)| == |b|;
    if a != [] {
      SortedHeads(order, a, b);
      DropHead(a);
      DropHead(b);
      SortedTail(order, a);
      SortedTail(order, b);
      SortedUnique(order, a[1..], b[1..]);
      assert a == [a[0]] + a[1..] && b == [b[0]] + b[1..];
    }
  }

  /** Two sorted strings with the same letters start with the same letter. */
  lemma SortedHeads(order: string, a: string, b: string)
    requires SortedByRank(order, a) && SortedByRank(order, b) && multiset(a) == multiset(b)
    requires a != [] && b != []
    ensures a[0] == b[0]
  {
    assert a[0] in multiset(b) && b[0] in multiset(a);
    SortedHead(order, b, a[0]);
    SortedHead(order, a, b[0]);
    RankInjective(order, a[0], b[0]);
  }

  /** Dropping the first letter removes one occurrence of it. */
  lemma DropHead(a: string)
    requires a != []
    ensures multiset(a[1..]) == multiset(a) - multiset{a[0]}
  {
    assert a == [a[0]] + a[1..];
  }

  /** Any arrangement of the subject's non-space letters by non-decreasing rank
      is the palette's tail: the palette does not depend on how `sorted` orders
      letters of equal rank. */
  lemma PaletteDetermined(order: string, subject: string, sorted: string)
    requires BuildPalette(order, subject).Ok?
    requires SortedByRank(order, sorted) && multiset(sorted) == multiset(StripSpaces(subject))
    ensures BuildPalette(order, subject).value == Blanks + sorted
  {
    var p := BuildPalette(order, subject).value;
    assert multiset(p[2..]) == multiset(StripSpaces(subject)) by {
      assert multiset(p[2..])[' '] == 0 == multiset(StripSpaces(subject))[' '];
    }
    SortedUnique(order, p[2..], sorted);
    assert p == p[..2] + p[2..];
  }

  /** The density order holds lower-case letters only. */
  lemma DensityLowerCase()
    ensures forall i :: 0 <= i < |Density| ==> 'a' <= Density[i] <= 'z'
  {
  }

  /** A subject name with an upper-case letter has no palette: building it
      raises, and the run ends (concrete.py:50-51, before the `try` at 69). */
  lemma UpperCaseAborts(subject: string, c: char)
    requires c in subject && 'A' <= c <= 'Z'
    ensures BuildPalette(Density, subject).Err?
    ensures !Caught(BuildPalette(Density, subject).error)
  {
    DensityLowerCase();
  }
}
