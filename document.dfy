/** The HTML text of an edition (concrete.py:99-107): a heading with the
    generation time, the list of featured subjects, one section per subject
    holding its poem, and every space replaced by `&nbsp;` so that the blank
    glyphs of the poems keep their width. */
module Document {
  import opened Palette

  /** The entity that stands for a space in the finished text. */
  const Nbsp: string := "&nbsp;"

  /** The heading of every edition and the address of the project. */
  const Title: string := "<h1>concrete animals</h1>"
  const Home: string := "<p>https://github.com/nmifsud/concrete</p>"

  /** The text that opens the list of subjects. */
  const Featured: string := "<br><p>featured in this edition:</p><ul>"

  /** The opening of the text for a generation time `stamp`, as the program
      formats it (concrete.py:99-101). */
  function Header(stamp: string): (r: string)
    ensures var at := |Title| + |Home| + 16;
      |r| == at + |stamp| + 4 + |Featured| && r[at..at + |stamp|] == stamp
    ensures r[..|Title|] == Title
    ensures r[|r| - |Featured|..] == Featured
  {
    Title + Home + "<p>generated on " + stamp + "</p>" + Featured
  }

  /** One item of the list of subjects: the name, unchanged, between the
      item tags. */
  function Item(subject: string): (r: string)
    ensures |r| == |subject| + 9
  {
    "<li>" + subject + "</li>"
  }

  /** The name comes back whole from between the item tags. */
  lemma ItemParts(subject: string)
    ensures var r := Item(subject);
      r[..4] == "<li>" && r[4..|r| - 5] == subject && r[|r| - 5..] == "</li>"
  {
  }

  /** The items of the list, in the order of `subjects` (concrete.py:102-103). */
  function IndexList(subjects: seq<string>): (r: string)
    ensures r == [] <==> subjects == []
    ensures subjects != [] ==> |Item(subjects[0])| <= |r| && r[..|Item(subjects[0])|] == Item(subjects[0])
  {
    if subjects == [] then []
    else
      var k := |subjects| - 1;
      var front := IndexList(subjects[..k]);
      assert k > 0 ==> subjects[..k][0] == subjects[0];
      front + Item(subjects[k])
  }

  /** The section of one subject: its name as a heading, then its poem, both
      unchanged. */
  function Section(subject: string, poem: string): (r: string)
    ensures |r| == |subject| + |poem| + 16
  {
    "<h2>" + subject + "</h2><p>" + poem + "</p>"
  }

  /** The name and the poem come back whole from between the tags. */
  lemma SectionParts(subject: string, poem: string)
    ensures var r := Section(subject, poem);
      r[4..4 + |subject|] == subject && r[|subject| + 12..|r| - 4] == poem
  {
  }

  /** The sections of all subjects, in order (concrete.py:105-106). */
  function Sections(subjects: seq<string>, poems: seq<string>): (r: string)
    requires |poems| == |subjects|
    ensures r == [] <==> subjects == []
    ensures subjects != [] ==> var first := Section(subjects[0], poems[0]);
      |first| <= |r| && r[..|first|] == first
  {
    if subjects == [] then []
    else
      var k := |subjects| - 1;
      var front := Sections(subjects[..k], poems[..k]);
      assert k > 0 ==> subjects[..k][0] == subjects[0] && poems[..k][0] == poems[0];
      front + Section(subjects[k], poems[k])
  }

  /** `text.replace(' ', '&nbsp;')` (concrete.py:107). */
  function Escape(s: string): (r: string)
    ensures ' ' !in r
  {
    if s == [] then [] else EscapeChar(s[0]) + Escape(s[1..])
  }

  /** What one character becomes. */
  function EscapeChar(c: char): (r: string)
    ensures ' ' !in r
    ensures |r| == if c == ' ' then 6 else 1
  {
    if c == ' ' then Nbsp else [c]
  }

  /** Each space grows by the five further characters of `&nbsp;`. */
  lemma {:induction false} EscapeLength(s: string)
    ensures |Escape(s)| == |s| + 5 * Count(s, ' ')
  {
    if s != [] {
      EscapeLength(s[1..]);
      assert s == [s[0]] + s[1..];
    }
  }

  /** Reads `&nbsp;` back as a space: the reverse of `Escape`. */
  function Unescape(s: string): string
  {
    if s == [] then []
    else if |s| >= 6 && s[..6] == Nbsp then [' '] + Unescape(s[6..])
    else [s[0]] + Unescape(s[1..])
  }

  /** Escaping works character by character, so it distributes over
      concatenation. */
  lemma {:induction false} EscapeAppend(a: string, b: string)
    ensures Escape(a + b) == Escape(a) + Escape(b)
  {
    if a == [] {
      assert a + b == b;
    } else {
      calc {
        Escape(a + b);
        { assert (a + b)[0] == a[0] && (a + b)[1..] == a[1..] + b; }
        EscapeChar(a[0]) + Escape(a[1..] + b);
        { EscapeAppend(a[1..], b); }
        EscapeChar(a[0]) + (Escape(a[1..]) + Escape(b));
        (EscapeChar(a[0]) + Escape(a[1..])) + Escape(b);
        Escape(a) + Escape(b);
      }
    }
  }

  /** A text without `&` comes back unchanged from escaping and unescaping, so
      escaping loses nothing and keeps every other character in its place. */
  lemma {:induction false} UnescapeEscape(s: string)
    requires '&' !in s
    ensures Unescape(Escape(s)) == s
  {
    if s != [] {
      UnescapeEscape(s[1..]);
      var rest := Escape(s[1..]);
      var e := EscapeChar(s[0]) + rest;
      if s[0] == ' ' {
        assert e[..6] == Nbsp && e[6..] == rest;
      } else {
        assert |e| < 6 || e[..6] != Nbsp by {
          if |e| >= 6 { assert e[..6][0] == s[0] != '&'; }
        }
        assert e[0] == s[0] && e[1..] == rest;
      }
      assert s == [s[0]] + s[1..];
    }
  }

  /** A text without spaces is left as it is, and only such a text. */
  lemma {:induction false} EscapeFixed(s: string)
    ensures Escape(s) == s <==> ' ' !in s
  {
    if ' ' !in s && s != [] {
      EscapeFixed(s[1..]);
      assert s == [s[0]] + s[1..];
    }
  }

  /** Escaping twice is escaping once. */
  lemma EscapeIdempotent(s: string)
    ensures Escape(Escape(s)) == Escape(s)
  {
    EscapeFixed(Escape(s));
  }

  /** The list of a concatenation of subject sequences is the concatenation of
      their lists: items stay in the order of the subjects. */
  lemma {:induction false} IndexListAppend(a: seq<string>, b: seq<string>)
    ensures IndexList(a + b) == IndexList(a) + IndexList(b)
  {
    if b == [] {
      assert a + b == a;
    } else {
      var k := |b| - 1;
      calc {
        IndexList(a + b);
        { DropLast(a, b); }
        IndexList(a + b[..k]) + Item(b[k]);
        { IndexListAppend(a, b[..k]); }
        (IndexList(a) + IndexList(b[..k])) + Item(b[k]);
        IndexList(a) + (IndexList(b[..k]) + Item(b[k]));
        IndexList(a) + IndexList(b);
      }
    }
  }

  /** The last element of `a + b` is that of `b`, and what comes before it is
      `a` followed by the rest of `b`. */
  lemma DropLast<T>(a: seq<T>, b: seq<T>)
    requires b != []
    ensures (a + b)[..|a + b| - 1] == a + b[..|b| - 1]
    ensures (a + b)[|a + b| - 1] == b[|b| - 1]
  {
  }

  /** The sections of a concatenation are the concatenation of the sections:
      each poem follows its own subject, in the order of the subjects. */
  lemma {:induction false} SectionsAppend(s1: seq<string>, p1: seq<string>, s2: seq<string>, p2: seq<string>)
    requires |p1| == |s1| && |p2| == |s2|
    ensures Sections(s1 + s2, p1 + p2) == Sections(s1, p1) + Sections(s2, p2)
  {
    if s2 == [] {
      assert s1 + s2 == s1 && p1 + p2 == p1;
    } else {
      var k := |s2| - 1;
      var s, p := s1 + s2, p1 + p2;
      calc {
        Sections(s, p);
        { DropLast(s1, s2); DropLast(p1, p2); }
        Sections(s1 + s2[..k], p1 + p2[..k]) + Section(s2[k], p2[k]);
        { SectionsAppend(s1, p1, s2[..k], p2[..k]); }
        (Sections(s1, p1) + Sections(s2[..k], p2[..k])) + Section(s2[k], p2[k]);
        Sections(s1, p1) + (Sections(s2[..k], p2[..k]) + Section(s2[k], p2[k]));
        Sections(s1, p1) + Sections(s2, p2);
      }
    }
  }

  /** The unescaped text of an edition: heading, list, sections. It has an `&`
      only where the time stamp, a subject or a poem has one. */
  function Plain(subjects: seq<string>, poems: seq<string>, stamp: string): (r: string)
    requires |poems| == |subjects|
    ensures '&' !in stamp && (forall k :: 0 <= k < |subjects| ==> '&' !in subjects[k] && '&' !in poems[k])
      ==> '&' !in r
  {
    var text := Header(stamp) + IndexList(subjects) + "</ul>" + Sections(subjects, poems);
    if '&' !in stamp && (forall k :: 0 <= k < |subjects| ==> '&' !in subjects[k] && '&' !in poems[k]) then
      HeaderPlain(stamp);
      IndexListPlain(subjects);
      SectionsPlain(subjects, poems);
      assert '&' !in "</ul>";
      text
    else
      text
  }

  /** The finished text of an edition (concrete.py:99-107). */
  function Edition(subjects: seq<string>, poems: seq<string>, stamp: string): (text: string)
    requires |poems| == |subjects|
    ensures ' ' !in text
  {
    Escape(Plain(subjects, poems, stamp))
  }

  /** Builds the text as the program does: the heading, one list item per
      subject, the end of the list, one section per subject, then the
      replacement of spaces. */
  method Assemble(subjects: seq<string>, poems: seq<string>, stamp: string) returns (text: string)
    requires |poems| == |subjects|
    ensures text == Edition(subjects, poems, stamp)
  {
    text := Header(stamp);
    text := AppendItems(text, subjects);
    text := text + "</ul>";
    text := AppendSections(text, subjects, poems);
    text := Escape(text);
  }

  /** The loop of concrete.py:102-103: one list item per subject, in order. */
  method AppendItems(start: string, subjects: seq<string>) returns (text: string)
    ensures text == start + IndexList(subjects)
  {
    text := start;
    var p := 0;
    while p < |subjects|
      invariant 0 <= p <= |subjects|
      invariant text == start + IndexList(subjects[..p])
    {
      ItemsStep(start, text, subjects, p);
      text := text + "<li>" + subjects[p] + "</li>";
      p := p + 1;
    }
    assert subjects[..p] == subjects;
  }

  /** The loop of concrete.py:105-106: one section per subject, in order. */
  method AppendSections(start: string, subjects: seq<string>, poems: seq<string>) returns (text: string)
    requires |poems| == |subjects|
    ensures text == start + Sections(subjects, poems)
  {
    text := start;
    var p := 0;
    while p < |subjects|
      invariant 0 <= p <= |subjects|
      invariant text == start + Sections(subjects[..p], poems[..p])
    {
      SectionsStep(start, text, subjects, poems, p);
      text := text + ("<h2>" + subjects[p] + "</h2><p>" + poems[p] + "</p>");
      p := p + 1;
    }
    assert subjects[..p] == subjects && poems[..p] == poems;
  }

  /** One more subject adds its item at the end. */
  lemma ItemsStep(start: string, text: string, subjects: seq<string>, p: int)
    requires 0 <= p < |subjects|
    requires text == start + IndexList(subjects[..p])
    ensures text + "<li>" + subjects[p] + "</li>" == start + IndexList(subjects[..p + 1])
  {
    assert subjects[..p + 1][..p] == subjects[..p];
  }

  /** One more subject adds its section at the end. */
  lemma SectionsStep(start: string, text: string, subjects: seq<string>, poems: seq<string>, p: int)
    requires |poems| == |subjects| && 0 <= p < |subjects|
    requires text == start + Sections(subjects[..p], poems[..p])
    ensures text + ("<h2>" + subjects[p] + "</h2><p>" + poems[p] + "</p>")
      == start + Sections(subjects[..p + 1], poems[..p + 1])
  {
    SectionsSnoc(subjects, poems, p);
  }

  /** The sections of the first p + 1 subjects end with the section of subject p. */
  lemma SectionsSnoc(subjects: seq<string>, poems: seq<string>, p: int)
    requires |poems| == |subjects| && 0 <= p < |subjects|
    ensures Sections(subjects[..p + 1], poems[..p + 1])
      == Sections(subjects[..p], poems[..p]) + Section(subjects[p], poems[p])
  {
    assert subjects[..p + 1][..p] == subjects[..p];
    assert poems[..p + 1][..p] == poems[..p];
  }

  /** The fixed parts of the heading hold no `&`. */
  lemma HeaderPlain(stamp: string)
    requires '&' !in stamp
    ensures '&' !in Header(stamp)
  {
    TitlePlain();
    FeaturedPlain();
    assert '&' !in "<p>generated on " && '&' !in "</p>";
  }

  lemma TitlePlain()
    ensures '&' !in Title && '&' !in Home
  {
  }

  lemma FeaturedPlain()
    ensures '&' !in Featured
  {
  }

  /** No `&` in any subject name makes no `&` in the list. */
  lemma {:induction false} IndexListPlain(subjects: seq<string>)
    requires forall k :: 0 <= k < |subjects| ==> '&' !in subjects[k]
    ensures '&' !in IndexList(subjects)
  {
    if subjects != [] {
      var k := |subjects| - 1;
      IndexListPlain(subjects[..k]);
      assert '&' !in subjects[k];
      assert '&' !in "<li>" && '&' !in "</li>";
    }
  }

  /** No `&` in any subject name or poem makes no `&` in the sections. */
  lemma {:induction false} SectionsPlain(subjects: seq<string>, poems: seq<string>)
    requires |poems| == |subjects|
    requires forall k :: 0 <= k < |subjects| ==> '&' !in subjects[k] && '&' !in poems[k]
    ensures '&' !in Sections(subjects, poems)
  {
    if subjects != [] {
      var k := |subjects| - 1;
      SectionsPlain(subjects[..k], poems[..k]);
      assert '&' !in subjects[k] && '&' !in poems[k];
      assert '&' !in "<h2>" && '&' !in "</h2><p>" && '&' !in "</p>";
    }
  }

  /** When no subject name, poem or time holds `&`, unescaping the finished text
      gives back heading, list and sections exactly. */
  lemma EditionPlain(subjects: seq<string>, poems: seq<string>, stamp: string)
    requires |poems| == |subjects| && '&' !in stamp
    requires forall k :: 0 <= k < |subjects| ==> '&' !in subjects[k] && '&' !in poems[k]
    ensures Unescape(Edition(subjects, poems, stamp)) == Plain(subjects, poems, stamp)
  {
    UnescapeEscape(Plain(subjects, poems, stamp));
  }
}
