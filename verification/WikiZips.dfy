/**
 The zip writer of backend/scripts/get_wikidocs.py: pages go into zips of a fixed size,
 and a page whose file name is in use in its zip gets the first free numbered name.
 */
module WikiZips {
  import opened Wrappers
  import opened Sequences
  import opened Text

  datatype Page = Page(title: string, text: string)

  datatype Entry = Entry(filename: string, content: string)

  // ----- File names -------------------------------------------------------

  const MAX_STEM := 200

  /** What `\s` matches in a Python string. */
  predicate IsSpace(c: char) {
    || '\t' <= c <= '\r' || '\U{1c}' <= c <= ' ' || c == '\U{85}' || c == '\U{a0}' || c == '\U{1680}'
    || '\U{2000}' <= c <= '\U{200a}' || c == '\U{2028}' || c == '\U{2029}' || c == '\U{202f}'
    || c == '\U{205f}' || c == '\U{3000}'
  }

  /** These, by their code points. */
  lemma SpacesListed(c: char)
    ensures IsSpace(c) <==>
            c as int in {9, 10, 11, 12, 13, 28, 29, 30, 31, 32, 0x85, 0xa0, 0x1680,
                         0x2000, 0x2001, 0x2002, 0x2003, 0x2004, 0x2005, 0x2006, 0x2007, 0x2008, 0x2009, 0x200a,
                         0x2028, 0x2029, 0x202f, 0x205f, 0x3000}
  {
  }

  predicate IsAllowed(c: char) {
    'a' <= c <= 'z' || 'A' <= c <= 'Z' || '0' <= c <= '9' || c == '_' || c == '-'
  }

  /** Each run of whitespace becomes one underscore; inRun tells whether one is going on. */
  function Underscored(s: string, inRun: bool): string {
    if s == "" then ""
    else if IsSpace(s[0]) then (if inRun then "" else "_") + Underscored(s[1..], true)
    else [s[0]] + Underscored(s[1..], false)
  }

  function Filtered(s: string): (r: string)
    ensures forall i :: 0 <= i < |r| ==> IsAllowed(r[i])
  {
    if s == "" then "" else (if IsAllowed(s[0]) then [s[0]] else "") + Filtered(s[1..])
  }

  predicate IsStem(s: string) {
    1 <= |s| <= MAX_STEM && forall i :: 0 <= i < |s| ==> IsAllowed(s[i])
  }

  function Cleaned(title: string): (r: string)
    ensures forall i :: 0 <= i < |r| ==> IsAllowed(r[i])
  {
    Filtered(Underscored(title, false))
  }

  function SanitizeFilename(title: string): (r: string)
    ensures IsStem(r)
  {
    var sanitized := Cleaned(title);
    var cut := if |sanitized| > MAX_STEM then sanitized[..MAX_STEM] else sanitized;
    if cut == "" then "untitled" else cut
  }

  /** The name is the longest allowed prefix of the cleaned title. */
  lemma SanitizeMeaning(title: string)
    ensures var r := SanitizeFilename(title);
            && (Cleaned(title) == "" ==> r == "untitled")
            && (Cleaned(title) != "" ==> r <= Cleaned(title) && (r == Cleaned(title) || |r| == 200))
  {
  }

  predicate NoSpaces(s: string) {
    forall i :: 0 <= i < |s| ==> !IsSpace(s[i])
  }

  predicate OnlySpaces(s: string) {
    forall i :: 0 <= i < |s| ==> IsSpace(s[i])
  }

  lemma {:induction false} FilteredConcat(a: string, b: string)
    ensures Filtered(a + b) == Filtered(a) + Filtered(b)
  {
    hide IsAllowed;
    if a == "" {
      assert a + b == b;
    } else {
      assert (a + b)[1..] == a[1..] + b;
      FilteredConcat(a[1..], b);
    }
  }

  /** Of a text, the letters, digits, hyphens and underscores are left, in order. */
  lemma {:induction false} FilteredMeaning(s: string)
    ensures Filtered(s) ==
            Filter(s, (c: char) => 'a' <= c <= 'z' || 'A' <= c <= 'Z' || '0' <= c <= '9' || c in "-_")
  {
    if s == "" {
    } else {
      FilteredMeaning(s[1..]);
      FilterFirst(s, (c: char) => 'a' <= c <= 'z' || 'A' <= c <= 'Z' || '0' <= c <= '9' || c in "-_");
    }
  }

  lemma {:induction false} UnderscoredWord(word: string, rest: string)
    requires NoSpaces(word)
    ensures Underscored(word + rest, false) == word + Underscored(rest, false)
  {
    if word == "" {
      assert word + rest == rest;
    } else {
      assert (word + rest)[1..] == word[1..] + rest;
      UnderscoredWord(word[1..], rest);
      assert [word[0]] + word[1..] == word;
    }
  }

  lemma {:induction false} UnderscoredSpaces(spaces: string, rest: string)
    requires OnlySpaces(spaces)
    ensures Underscored(spaces + rest, true) == Underscored(rest, true)
  {
    if spaces == "" {
      assert spaces + rest == rest;
    } else {
      assert (spaces + rest)[1..] == spaces[1..] + rest;
      UnderscoredSpaces(spaces[1..], rest);
    }
  }

  /** Whether a run was going on does not matter to a text that starts no run. */
  lemma UnderscoredRun(spaces: string, rest: string)
    requires OnlySpaces(spaces) && spaces != "" && (rest == "" || !IsSpace(rest[0]))
    ensures Underscored(spaces + rest, false) == "_" + Underscored(rest, false)
  {
    hide IsSpace;
    assert (spaces + rest)[1..] == spaces[1..] + rest;
    UnderscoredSpaces(spaces[1..], rest);
  }

  lemma UnderscoredAlone(word: string)
    requires NoSpaces(word)
    ensures Underscored(word, false) == word
  {
    UnderscoredWord(word, "");
    assert word + "" == word;
  }

  lemma UnderscoreStays()
    ensures Filtered("_") == "_"
  {
    assert "_"[1..] == "";
  }

  /**
   Word by word: of a word the allowed characters are kept in order, and the whitespace
   behind it, however long, becomes one underscore.
   */
  lemma CleanedWord(word: string, spaces: string, rest: string)
    requires NoSpaces(word) && OnlySpaces(spaces) && spaces != "" && (rest == "" || !IsSpace(rest[0]))
    ensures Cleaned(word + spaces + rest) == Filtered(word) + "_" + Cleaned(rest)
    ensures Cleaned(word) == Filtered(word)
  {
    hide Underscored, Filtered, IsSpace, IsAllowed;
    assert word + spaces + rest == word + (spaces + rest);
    UnderscoredWord(word, spaces + rest);
    UnderscoredRun(spaces, rest);
    FilteredConcat(word, "_" + Underscored(rest, false));
    FilteredConcat("_", Underscored(rest, false));
    UnderscoreStays();
    assert Filtered(word) + (Filtered("_") + Filtered(Underscored(rest, false))) ==
           Filtered(word) + "_" + Filtered(Underscored(rest, false));
    UnderscoredAlone(word);
  }

  lemma {:induction false} FilteredAllowed(s: string)
    requires forall i :: 0 <= i < |s| ==> IsAllowed(s[i])
    ensures Filtered(s) == s
  {
    if s == "" {
    } else {
      FilteredAllowed(s[1..]);
      assert [s[0]] + s[1..] == s;
    }
  }

  /** A name that is clean already is left alone; so sanitizing twice is sanitizing once. */
  lemma SanitizeKeepsStems(stem: string)
    requires IsStem(stem)
    ensures SanitizeFilename(stem) == stem
  {
    UnderscoredAlone(stem);
    FilteredAllowed(stem);
  }

  function LastDot(name: string, n: nat): (dot: Option<nat>)
    requires n <= |name|
    ensures dot.Some? ==> dot.value < n
  {
    if n == 0 then None else if name[n - 1] == '.' then Some(n - 1) else LastDot(name, n - 1)
  }

  /** `os.path.splitext` of a name without slashes: leading dots start no extension. */
  function SplitExt(name: string): (string, string) {
    match LastDot(name, |name|)
    case None => (name, "")
    case Some(dot) =>
      if exists i :: 0 <= i < dot && name[i] != '.' then (name[..dot], name[dot..]) else (name, "")
  }

  /** A sanitized name gives its extension back. */
  lemma SplitOfSanitized(stem: string)
    requires IsStem(stem)
    ensures SplitExt(stem + ".txt") == (stem, ".txt")
  {
    var name := stem + ".txt";
    assert name[|stem|] == '.' && name[|stem| + 1] == 't' && name[|stem| + 2] == 'x' && name[|stem| + 3] == 't';
    assert LastDot(name, |name|) == LastDot(name, |stem| + 1) == Some(|stem|) by {
      assert LastDot(name, |stem| + 4) == LastDot(name, |stem| + 3) == LastDot(name, |stem| + 2);
    }
    assert name[0] == stem[0] != '.';
    assert name[..|stem|] == stem && name[|stem|..] == ".txt";
  }

  /** The k-th candidate for a file name: the plain one, then name_1, name_2, ... */
  function Candidate(stem: string, k: nat): string {
    if k == 0 then stem + ".txt" else stem + "_" + Decimal(k) + ".txt"
  }

  lemma CandidateExamples(stem: string)
    ensures Candidate(stem, 0) == stem + ".txt"
    ensures Candidate(stem, 1) == stem + "_1.txt"
    ensures Candidate(stem, 120) == stem + "_120.txt"
  {
    DecimalExamples();
    assert Decimal(1) == "1";
  }

  function NamesIn(zip: seq<Entry>): seq<string> {
    seq(|zip|, i requires 0 <= i < |zip| => zip[i].filename)
  }

  lemma SuffixCancels(a: string, b: string, suffix: string)
    requires a + suffix == b + suffix
    ensures a == b
  {
    assert |a| == |b|;
    assert a == (a + suffix)[..|a|] && b == (b + suffix)[..|b|];
  }

  lemma PrefixCancels(prefix: string, a: string, b: string)
    requires prefix + a == prefix + b
    ensures a == b
  {
    assert a == (prefix + a)[|prefix|..] && b == (prefix + b)[|prefix|..];
  }

  /** No two candidates for a page are the same name. */
  lemma CandidatesDiffer(stem: string, j: nat, k: nat)
    requires Candidate(stem, j) == Candidate(stem, k)
    ensures j == k
  {
    if j == 0 || k == 0 {
      assert |Candidate(stem, 0)| == |stem| + 4;
    } else {
      SuffixCancels(stem + "_" + Decimal(j), stem + "_" + Decimal(k), ".txt");
      PrefixCancels(stem + "_", Decimal(j), Decimal(k));
      DecimalInjective(j, k);
    }
  }

  /** The candidates tried so far, all in use. */
  ghost function Tried(stem: string, n: nat): (s: seq<string>)
    ensures |s| == n && forall k :: 0 <= k < n ==> s[k] == Candidate(stem, k)
  {
    if n == 0 then [] else Tried(stem, n - 1) + [Candidate(stem, n - 1)]
  }

  /** Names in use bound the tries: distinct tried names are all among them. */
  lemma TriesBounded(stem: string, names: seq<string>, n: nat)
    requires forall k: nat :: k < n ==> Candidate(stem, k) in names
    ensures n <= |names|
  {
    var tried := Tried(stem, n);
    forall i, j | 0 <= i < j < n ensures tried[i] != tried[j] {
      if tried[i] == tried[j] { CandidatesDiffer(stem, i, j); }
    }
    DistinctCount(tried);
    SubsetCount(Elements(tried), Elements(names));
    CountBound(names);
  }

  /** The first candidate that is not in use. */
  ghost predicate IsFirstFree(filename: string, stem: string, names: seq<string>) {
    && filename !in names
    && exists k: nat ::
         && k <= |names| && filename == Candidate(stem, k)
         && forall j: nat :: j < k ==> Candidate(stem, j) in names
  }

  /** The renaming loop ends within one try more than the zip has entries. */
  method FreeName(stem: string, names: seq<string>) returns (filename: string)
    requires IsStem(stem)
    ensures IsFirstFree(filename, stem, names)
  {
    filename := stem + ".txt";
    var baseFilename := filename;
    var counter := 1;
    SplitOfSanitized(stem);
    while filename in names
      invariant counter >= 1 && filename == Candidate(stem, counter - 1)
      invariant forall j: nat :: j < counter - 1 ==> Candidate(stem, j) in names
      decreases |names| + 1 - counter
    {
      TriesBounded(stem, names, counter);
      var (name, ext) := SplitExt(baseFilename);
      filename := name + "_" + Decimal(counter) + ext;
      counter := counter + 1;
    }
    TriesBounded(stem, names, counter - 1);
  }

  // ----- What the zips hold -----------------------------------------------

  function PageContent(page: Page): string {
    "Title: " + page.title + "\n\n" + page.text
  }

  /** Each page is an entry under the first name free when it was added. */
  ghost predicate HoldsPages(zip: seq<Entry>, pages: seq<Page>) {
    && |zip| == |pages|
    && forall i :: 0 <= i < |zip| ==>
                     && zip[i].content == "Title: " + pages[i].title + "\n\n" + pages[i].text
                     && IsFirstFree(zip[i].filename, SanitizeFilename(pages[i].title), NamesIn(zip[..i]))
  }

  function PagesIn(zips: seq<seq<Entry>>): nat {
    if zips == [] then 0 else PagesIn(zips[..|zips| - 1]) + |zips[|zips| - 1]|
  }

  /** The zips, one after another, hold exactly these pages in this order. */
  ghost predicate Hold(zips: seq<seq<Entry>>, pages: seq<Page>) {
    if zips == [] then pages == []
    else
      var last := zips[|zips| - 1];
      && |last| <= |pages|
      && HoldsPages(last, pages[|pages| - |last|..])
      && Hold(zips[..|zips| - 1], pages[..|pages| - |last|])
  }

  /** All zips but the last are full, and no zip is empty or over-full. */
  ghost predicate WellFilled(zips: seq<seq<Entry>>, perZip: nat) {
    && (forall i :: 0 <= i < |zips| ==> 1 <= |zips[i]| <= perZip)
    && (forall i :: 0 <= i < |zips| - 1 ==> |zips[i]| == perZip)
  }

  lemma {:induction false} HoldCounts(zips: seq<seq<Entry>>, pages: seq<Page>)
    requires Hold(zips, pages)
    ensures PagesIn(zips) == |pages|
  {
    if zips == [] {
    } else {
      HoldCounts(zips[..|zips| - 1], pages[..|pages| - |zips[|zips| - 1]|]);
    }
  }

  /** First free names are distinct. */
  lemma NamesDistinct(zip: seq<Entry>, pages: seq<Page>)
    requires HoldsPages(zip, pages)
    ensures Distinct(NamesIn(zip))
  {
    forall i, j | 0 <= i < j < |zip| ensures NamesIn(zip)[i] != NamesIn(zip)[j] {
      assert IsFirstFree(zip[j].filename, SanitizeFilename(pages[j].title), NamesIn(zip[..j]));
      assert NamesIn(zip[..j])[i] == zip[i].filename;
    }
  }

  /** No zip has two entries of the same name. */
  lemma {:induction false} AllNamesDistinct(zips: seq<seq<Entry>>, pages: seq<Page>)
    requires Hold(zips, pages)
    ensures forall i :: 0 <= i < |zips| ==> Distinct(NamesIn(zips[i]))
  {
    if zips == [] {
    } else {
      var last := zips[|zips| - 1];
      AllNamesDistinct(zips[..|zips| - 1], pages[..|pages| - |last|]);
      NamesDistinct(last, pages[|pages| - |last|..]);
    }
  }

  lemma HoldNewZip(zips: seq<seq<Entry>>, pages: seq<Page>, e: Entry, page: Page)
    requires Hold(zips, pages)
    requires e.content == PageContent(page) && IsFirstFree(e.filename, SanitizeFilename(page.title), [])
    ensures Hold(zips + [[e]], pages + [page])
  {
    assert NamesIn([e][..0]) == [];
    assert (zips + [[e]])[..|zips|] == zips;
    assert (pages + [page])[..|pages|] == pages && (pages + [page])[|pages|..] == [page];
  }

  lemma HoldsMore(zip: seq<Entry>, pages: seq<Page>, e: Entry, page: Page)
    requires HoldsPages(zip, pages)
    requires e.content == PageContent(page) && IsFirstFree(e.filename, SanitizeFilename(page.title), NamesIn(zip))
    ensures HoldsPages(zip + [e], pages + [page])
  {
    var grown := zip + [e];
    assert grown[..|zip|] == zip;
    forall i | 0 <= i < |zip|
      ensures IsFirstFree(grown[i].filename, SanitizeFilename((pages + [page])[i].title), NamesIn(grown[..i])) {
      assert grown[..i] == zip[..i];
    }
  }

  lemma HoldMore(zips: seq<seq<Entry>>, pages: seq<Page>, e: Entry, page: Page)
    requires zips != [] && Hold(zips, pages)
    requires e.content == PageContent(page) &&
             IsFirstFree(e.filename, SanitizeFilename(page.title), NamesIn(zips[|zips| - 1]))
    ensures var n := |zips| - 1; Hold(zips[n := zips[n] + [e]], pages + [page])
  {
    var n := |zips| - 1;
    var last, start := zips[n], |pages| - |zips[n]|;
    HoldsMore(last, pages[start..], e, page);
    assert zips[n := last + [e]][..n] == zips[..n];
    assert (pages + [page])[start..] == pages[start..] + [page];
    assert (pages + [page])[..start] == pages[..start];
  }

  function AtLeast1(n: int): (r: nat)
    ensures r >= 1
  {
    if n < 1 then 1 else n
  }

  /** The pages a run downloads: at most total of them. */
  function Taken(pages: seq<Page>, total: int): seq<Page> {
    if total <= 0 then [] else if total < |pages| then pages[..total] else pages
  }

  /** The first pages of the stream: all of them, or as many as asked for. */
  lemma TakenMeaning(pages: seq<Page>, total: int)
    ensures Taken(pages, total) <= pages
    ensures |Taken(pages, total)| <= total || Taken(pages, total) == []
    ensures |Taken(pages, total)| >= total || Taken(pages, total) == pages
  {
  }

  lemma HoldNothing()
    ensures Hold([], [])
  {
  }

  /** A size below one is used like one: each page then opens a zip. */
  method StreamToZips(pages: seq<Page>, total: int, perZip: int) returns (zips: seq<seq<Entry>>)
    ensures Hold(zips, Taken(pages, total))
    ensures WellFilled(zips, AtLeast1(perZip))
  {
    hide HoldsPages, IsFirstFree, Hold, IsStem, SanitizeFilename, PageContent;
    zips := [];
    var pagesInCurrentZip := 0;
    var index := 0;
    HoldNothing();
    while index < |pages| && index < total
      invariant index <= |pages| && (index <= total || index == 0)
      invariant Hold(zips, pages[..index])
      invariant WellFilled(zips, AtLeast1(perZip))
      invariant pagesInCurrentZip == if zips == [] then 0 else |zips[|zips| - 1]|
    {
      var page := pages[index];
      assert pages[..index + 1] == pages[..index] + [page];
      if pagesInCurrentZip == 0 || pagesInCurrentZip >= perZip {
        var filename := FreeName(SanitizeFilename(page.title), []);
        var entry := Entry(filename, PageContent(page));
        HoldNewZip(zips, pages[..index], entry, page);
        zips := zips + [[entry]];
        pagesInCurrentZip := 1;
      } else {
        var n := |zips| - 1;
        var filename := FreeName(SanitizeFilename(page.title), NamesIn(zips[n]));
        var entry := Entry(filename, PageContent(page));
        HoldMore(zips, pages[..index], entry, page);
        zips := zips[n := zips[n] + [entry]];
        pagesInCurrentZip := pagesInCurrentZip + 1;
      }
      index := index + 1;
    }
    assert pages[..index] == Taken(pages, total);
  }

  lemma {:induction false} FilledCount(zips: seq<seq<Entry>>, perZip: nat)
    requires zips != [] && WellFilled(zips, perZip)
    ensures PagesIn(zips) == perZip * (|zips| - 1) + |zips[|zips| - 1]|
  {
    var n := |zips| - 1;
    if n == 0 {
      assert zips[..0] == [];
    } else {
      FilledCount(zips[..n], perZip);
      assert perZip * n == perZip * (n - 1) + perZip;
    }
  }

  lemma NoMultipleBetween(d: int, k: int)
    requires d > 0 && -d < d * k < d
    ensures k == 0
  {
  }

  lemma QuotientIs(n: int, d: int, q: int, r: int)
    requires d > 0 && 0 <= r < d && n == d * q + r
    ensures n / d == q
  {
    assert d * (n / d) + n % d == n;
    assert d * (n / d - q) == d * (n / d) - d * q;
    NoMultipleBetween(d, n / d - q);
  }

  lemma ZipCount(zips: seq<seq<Entry>>, perZip: nat)
    requires perZip > 0 && WellFilled(zips, perZip)
    ensures |zips| == (PagesIn(zips) + perZip - 1) / perZip
  {
    if zips == [] {
      QuotientIs(perZip - 1, perZip, 0, perZip - 1);
    } else {
      FilledCount(zips, perZip);
      var rest := |zips[|zips| - 1]| - 1;
      assert PagesIn(zips) + perZip - 1 == perZip * (|zips| - 1) + perZip + rest;
      assert perZip * (|zips| - 1) + perZip == perZip * |zips|;
      QuotientIs(PagesIn(zips) + perZip - 1, perZip, |zips|, rest);
    }
  }

  /** A run makes ceil(pages / perZip) zips. */
  lemma ZipsOfRun(zips: seq<seq<Entry>>, pages: seq<Page>, perZip: nat)
    requires perZip > 0 && Hold(zips, pages) && WellFilled(zips, perZip)
    ensures |zips| == (|pages| + perZip - 1) / perZip
  {
    HoldCounts(zips, pages);
    ZipCount(zips, perZip);
  }
}
