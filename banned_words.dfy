/**
 * The banned-word scanner (`find_banned_words`): every line of every file
 * met on the walk, outside `.git` directories, is tested against each banned
 * word, and every (file, line, word) match becomes one finding string.
 *
 * The walk is an input: the files `os.walk` yields, in the order it yields
 * them, each with the directory it was found in, its name, and either the
 * lines it reads as or the fact that it could not be read.
 *
 * The specification is stated for any list of words; the scanner itself
 * uses `Banned`.
 */
module BannedWords {
  import opened PyStrings

  /** `BANNED_WORDS`, in the order the scanner tests them. */
  const Banned: seq<string> := ["mock", "fallback", "simulate", "pretend", "fake"]

  /** What opening a file gives: its lines, or an error that the scan reports and skips. */
  datatype Content = Readable(lines: seq<string>) | Unreadable

  /** One file of the walk: the `root` it was listed under, its name, its content. */
  datatype FileEntry = FileEntry(root: string, name: string, content: Content)

  /** `os.path.join(root, file)`, the path findings are reported under. */
  function PathOf(e: FileEntry): string {
    Join(e.root, e.name)
  }

  /** `".git" in root.split(os.path.sep)` on a POSIX system. */
  predicate InGitDir(e: FileEntry) {
    ListContains(Split(e.root, '/'), ".git")
  }

  /** The file's lines are tested: it is outside `.git` and it could be read. */
  predicate Scanned(e: FileEntry) {
    !InGitDir(e) && e.content.Readable?
  }

  /** The text of one finding. */
  function FindingText(path: string, line: nat, word: string): string {
    Concat([path, ":", NatToString(line), ": Banned word '", word, "' found."])
  }

  /**
   * A match, by position: the index of the file in the walk, the 1-based
   * line number, and the index of the word in the list of words tested.
   */
  datatype Hit = Hit(file: nat, line: nat, word: nat)

  /** `h` is a real match in file `e`: that line of the file, which is scanned, contains that word. */
  predicate HitIn(e: FileEntry, words: seq<string>, h: Hit) {
    Scanned(e) && 1 <= h.line <= |e.content.lines| && h.word < |words|
    && Contains(e.content.lines[h.line - 1], words[h.word])
  }

  /** `h` is a real match in `walk`. */
  predicate IsHit(walk: seq<FileEntry>, words: seq<string>, h: Hit) {
    h.file < |walk| && HitIn(walk[h.file], words, h)
  }

  /** Walk order, then line order, then word order. */
  predicate Before(a: Hit, b: Hit) {
    a.file < b.file
    || (a.file == b.file && (a.line < b.line || (a.line == b.line && a.word < b.word)))
  }

  predicate Ordered(hs: seq<Hit>) {
    forall i, j :: 0 <= i < j < |hs| ==> Before(hs[i], hs[j])
  }

  /** The number of lines the scanner reads from file `i`. */
  function LineCount(walk: seq<FileEntry>, i: nat): nat {
    if i < |walk| && walk[i].content.Readable? then |walk[i].content.lines| else 0
  }

  /**
   * The scan position "word `w` of line `n + 1` of file `i`" (0-based `n`),
   * where the three loops of the scanner stand.
   */
  predicate Cursor(walk: seq<FileEntry>, words: seq<string>, i: nat, n: nat, w: nat) {
    i <= |walk| && n <= LineCount(walk, i) && w <= |words|
  }

  /** `h` lies at or after the scan position `(i, n, w)`. */
  predicate AtOrAfter(h: Hit, i: nat, n: nat, w: nat) {
    h.file > i || (h.file == i && (h.line > n + 1 || (h.line == n + 1 && h.word >= w)))
  }

  /**
   * The matches the scanner still finds from position `(i, n, w)` on: word
   * by word along a line, line by line along a file, file by file along the
   * walk; a file under `.git` or one that cannot be read is passed over.
   */
  function HitsFrom(walk: seq<FileEntry>, words: seq<string>, i: nat, n: nat, w: nat): seq<Hit>
    requires Cursor(walk, words, i, n, w)
    decreases |walk| - i, LineCount(walk, i) - n, |words| - w
  {
    if i == |walk| then []
    else if !Scanned(walk[i]) || n == |walk[i].content.lines| then HitsFrom(walk, words, i + 1, 0, 0)
    else if w == |words| then HitsFrom(walk, words, i, n + 1, 0)
    else
      (if Contains(walk[i].content.lines[n], words[w]) then [Hit(i, n + 1, w)] else [])
      + HitsFrom(walk, words, i, n, w + 1)
  }

  /** Every match in the walk, in the order the scanner finds them. */
  function Hits(walk: seq<FileEntry>, words: seq<string>): seq<Hit> {
    HitsFrom(walk, words, 0, 0, 0)
  }

  /** The finding the scanner writes for a match (and nothing for a position outside the walk). */
  function Render(walk: seq<FileEntry>, words: seq<string>, h: Hit): string {
    if h.file < |walk| && h.word < |words| then FindingText(PathOf(walk[h.file]), h.line, words[h.word]) else ""
  }

  /** The findings for `hs`, one per match, in the same order. */
  function RenderAll(walk: seq<FileEntry>, words: seq<string>, hs: seq<Hit>): (out: seq<string>)
    ensures |out| == |hs|
  {
    if hs == [] then [] else [Render(walk, words, hs[0])] + RenderAll(walk, words, hs[1..])
  }

  /** The list `find_banned_words` returns for `walk`, testing `words`. */
  function Findings(walk: seq<FileEntry>, words: seq<string>): seq<string> {
    RenderAll(walk, words, Hits(walk, words))
  }

  // Steps of the scan, one per branch of `HitsFrom`.

  /** After the last word of a line comes the next line. */
  lemma LineEnd(walk: seq<FileEntry>, words: seq<string>, i: nat, n: nat)
    requires Cursor(walk, words, i, n, |words|) && i < |walk| && Scanned(walk[i])
    requires n < |walk[i].content.lines|
    ensures HitsFrom(walk, words, i, n, |words|) == HitsFrom(walk, words, i, n + 1, 0)
  {
  }

  /** After the last line of a file, or in place of a skipped file, comes the next file. */
  lemma FileEnd(walk: seq<FileEntry>, words: seq<string>, i: nat, n: nat, w: nat)
    requires Cursor(walk, words, i, n, w) && i < |walk|
    requires !Scanned(walk[i]) || n == |walk[i].content.lines|
    ensures HitsFrom(walk, words, i, n, w) == HitsFrom(walk, words, i + 1, 0, 0)
  {
  }

  /** What is found plus what is still to find, from scan position `(i, n, w)`. */
  function Progress(walk: seq<FileEntry>, words: seq<string>, found: seq<string>, i: nat, n: nat, w: nat): seq<string>
    requires Cursor(walk, words, i, n, w)
  {
    found + RenderAll(walk, words, HitsFrom(walk, words, i, n, w))
  }

  /**
   * Testing word `w` on line `n + 1` of file `i` moves its finding, if the
   * line contains the word, from what is still to find to what is found.
   */
  lemma WordStep(walk: seq<FileEntry>, words: seq<string>, found: seq<string>, i: nat, n: nat, w: nat)
    requires i < |walk| && Scanned(walk[i]) && n < |walk[i].content.lines| && w < |words|
    ensures Contains(walk[i].content.lines[n], words[w]) ==>
      Progress(walk, words, found + [FindingText(PathOf(walk[i]), n + 1, words[w])], i, n, w + 1)
      == Progress(walk, words, found, i, n, w)
    ensures !Contains(walk[i].content.lines[n], words[w]) ==>
      Progress(walk, words, found, i, n, w + 1) == Progress(walk, words, found, i, n, w)
  {
    var rest := HitsFrom(walk, words, i, n, w + 1);
    if Contains(walk[i].content.lines[n], words[w]) {
      var hs := [Hit(i, n + 1, w)] + rest;
      assert HitsFrom(walk, words, i, n, w) == hs;
      assert hs[1..] == rest;
      var x := FindingText(PathOf(walk[i]), n + 1, words[w]);
      assert found + [x] + RenderAll(walk, words, rest) == found + ([x] + RenderAll(walk, words, rest));
    } else {
      assert HitsFrom(walk, words, i, n, w) == [] + rest;
      assert [] + rest == rest;
    }
  }

  /**
   * The innermost loop of `find_banned_words`: each word, in order, tested
   * on line `n + 1` of file `i`, appending a finding for each one present.
   * What is found plus what is still to find does not change.
   */
  method ScanLine(walk: seq<FileEntry>, words: seq<string>, i: nat, n: nat, found: seq<string>) returns (out: seq<string>)
    requires i < |walk| && Scanned(walk[i]) && n < |walk[i].content.lines|
    ensures Progress(walk, words, out, i, n + 1, 0) == Progress(walk, words, found, i, n, 0)
  {
    var e := walk[i];
    var line := e.content.lines[n];
    out := found;
    var w := 0;
    while w < |words|
      invariant w <= |words|
      invariant Progress(walk, words, out, i, n, w) == Progress(walk, words, found, i, n, 0)
    {
      WordStep(walk, words, out, i, n, w);
      if Contains(line, words[w]) {
        out := out + [FindingText(PathOf(e), n + 1, words[w])];
      }
      w := w + 1;
    }
    LineEnd(walk, words, i, n);
  }

  /**
   * The body of `find_banned_words` for file `i`: nothing for a file under
   * `.git` or one that cannot be read, otherwise every line in order.
   */
  method ScanFile(walk: seq<FileEntry>, words: seq<string>, i: nat, found: seq<string>) returns (out: seq<string>)
    requires i < |walk|
    ensures Progress(walk, words, out, i + 1, 0, 0) == Progress(walk, words, found, i, 0, 0)
  {
    var e := walk[i];
    out := found;
    var n := 0;
    if !InGitDir(e) && e.content.Readable? {
      var lines := e.content.lines;
      while n < |lines|
        invariant n <= |lines|
        invariant Progress(walk, words, out, i, n, 0) == Progress(walk, words, found, i, 0, 0)
      {
        out := ScanLine(walk, words, i, n, out);
        n := n + 1;
      }
    }
    FileEnd(walk, words, i, n, 0);
  }

  /**
   * `find_banned_words`: every file of the walk in order; one that is
   * passed over does not end the walk.
   */
  method FindBannedWords(walk: seq<FileEntry>) returns (found: seq<string>)
    ensures found == Findings(walk, Banned)
  {
    found := [];
    var i := 0;
    assert Progress(walk, Banned, [], 0, 0, 0) == Findings(walk, Banned);
    while i < |walk|
      invariant i <= |walk|
      invariant Progress(walk, Banned, found, i, 0, 0) == Findings(walk, Banned)
    {
      found := ScanFile(walk, Banned, i, found);
      i := i + 1;
    }
    assert found + [] == found;
  }

  // What the scan finds.

  /** At a skipped file or past its last line, the matches still ahead start at the next file. */
  lemma AheadSkip(walk: seq<FileEntry>, words: seq<string>, i: nat, n: nat, w: nat, h: Hit)
    requires Cursor(walk, words, i, n, w) && i < |walk|
    requires !Scanned(walk[i]) || n == |walk[i].content.lines|
    ensures IsHit(walk, words, h) && AtOrAfter(h, i, n, w) <==> IsHit(walk, words, h) && AtOrAfter(h, i + 1, 0, 0)
  {
  }

  /** Past the last word of a line, the matches still ahead start at the next line. */
  lemma AheadLine(walk: seq<FileEntry>, words: seq<string>, i: nat, n: nat, h: Hit)
    ensures IsHit(walk, words, h) && AtOrAfter(h, i, n, |words|) <==> IsHit(walk, words, h) && AtOrAfter(h, i, n + 1, 0)
  {
  }

  /** At word `w`, the matches still ahead are that word's match, if any, and those after it. */
  lemma AheadWord(walk: seq<FileEntry>, words: seq<string>, i: nat, n: nat, w: nat, h: Hit)
    requires i < |walk| && Scanned(walk[i]) && n < |walk[i].content.lines| && w < |words|
    ensures IsHit(walk, words, h) && AtOrAfter(h, i, n, w) <==>
      (h == Hit(i, n + 1, w) && Contains(walk[i].content.lines[n], words[w]))
      || (IsHit(walk, words, h) && AtOrAfter(h, i, n, w + 1))
  {
  }

  /** One step of the scan at word `w`: that word's match, if any, then the rest. */
  lemma HitsFromWord(walk: seq<FileEntry>, words: seq<string>, i: nat, n: nat, w: nat, h: Hit)
    requires i < |walk| && Scanned(walk[i]) && n < |walk[i].content.lines| && w < |words|
    ensures h in HitsFrom(walk, words, i, n, w) <==>
      (h == Hit(i, n + 1, w) && Contains(walk[i].content.lines[n], words[w]))
      || h in HitsFrom(walk, words, i, n, w + 1)
  {
  }

  /** The matches ahead of position `(i, n, w)`. */
  predicate Ahead(walk: seq<FileEntry>, words: seq<string>, i: nat, n: nat, w: nat, h: Hit)
    requires Cursor(walk, words, i, n, w)
  {
    h in HitsFrom(walk, words, i, n, w) <==> IsHit(walk, words, h) && AtOrAfter(h, i, n, w)
  }

  /** The exactness of the scan carries over a skipped or finished file. */
  lemma AheadSkipStep(walk: seq<FileEntry>, words: seq<string>, i: nat, n: nat, w: nat, h: Hit)
    requires Cursor(walk, words, i, n, w) && i < |walk|
    requires !Scanned(walk[i]) || n == |walk[i].content.lines|
    requires Ahead(walk, words, i + 1, 0, 0, h)
    ensures Ahead(walk, words, i, n, w, h)
  {
    FileEnd(walk, words, i, n, w);
    AheadSkip(walk, words, i, n, w, h);
  }

  /** The exactness of the scan carries over a finished line. */
  lemma AheadLineStep(walk: seq<FileEntry>, words: seq<string>, i: nat, n: nat, h: Hit)
    requires i < |walk| && Scanned(walk[i]) && n < |walk[i].content.lines|
    requires Ahead(walk, words, i, n + 1, 0, h)
    ensures Ahead(walk, words, i, n, |words|, h)
  {
    LineEnd(walk, words, i, n);
    AheadLine(walk, words, i, n, h);
  }

  /** The exactness of the scan carries over one word test. */
  lemma AheadWordStep(walk: seq<FileEntry>, words: seq<string>, i: nat, n: nat, w: nat, h: Hit)
    requires i < |walk| && Scanned(walk[i]) && n < |walk[i].content.lines| && w < |words|
    requires Ahead(walk, words, i, n, w + 1, h)
    ensures Ahead(walk, words, i, n, w, h)
  {
    HitsFromWord(walk, words, i, n, w, h);
    AheadWord(walk, words, i, n, w, h);
  }

  /**
   * From position `(i, n, w)` on, the scan lists exactly the real matches at
   * or after that position.
   */
  lemma {:induction false} HitsFromIff(walk: seq<FileEntry>, words: seq<string>, i: nat, n: nat, w: nat, h: Hit)
    requires Cursor(walk, words, i, n, w)
    ensures h in HitsFrom(walk, words, i, n, w) <==> IsHit(walk, words, h) && AtOrAfter(h, i, n, w)
    decreases |walk| - i, LineCount(walk, i) - n, |words| - w
  {
    if i == |walk| {
    } else if !Scanned(walk[i]) || n == |walk[i].content.lines| {
      HitsFromIff(walk, words, i + 1, 0, 0, h);
      AheadSkipStep(walk, words, i, n, w, h);
    } else if w == |words| {
      HitsFromIff(walk, words, i, n + 1, 0, h);
      AheadLineStep(walk, words, i, n, h);
    } else {
      HitsFromIff(walk, words, i, n, w + 1, h);
      AheadWordStep(walk, words, i, n, w, h);
    }
  }

  /** A match is found exactly when it is a real match. */
  lemma HitsExact(walk: seq<FileEntry>, words: seq<string>, h: Hit)
    ensures h in Hits(walk, words) <==> IsHit(walk, words, h)
  {
    HitsFromIff(walk, words, 0, 0, 0, h);
  }

  /** Each match comes before the next one. */
  predicate Chained(hs: seq<Hit>) {
    |hs| <= 1 || (Before(hs[0], hs[1]) && Chained(hs[1..]))
  }

  /** `Before` is transitive. */
  lemma BeforeTrans(a: Hit, b: Hit, c: Hit)
    requires Before(a, b) && Before(b, c)
    ensures Before(a, c)
  {
  }

  /** A list in which each match comes before the next is ordered pairwise. */
  lemma {:induction false} ChainedOrdered(hs: seq<Hit>)
    requires Chained(hs)
    ensures Ordered(hs)
  {
    if |hs| > 1 {
      var tl := hs[1..];
      ChainedOrdered(tl);
      forall j, k | 0 <= j < k < |hs| ensures Before(hs[j], hs[k]) {
        if j == 0 {
          if k > 1 {
            assert hs[1] == tl[0] && hs[k] == tl[k - 1];
            BeforeTrans(hs[0], hs[1], hs[k]);
          }
        } else {
          assert hs[j] == tl[j - 1] && hs[k] == tl[k - 1];
        }
      }
    }
  }

  /** Testing word `w`: its match, if the line contains it, comes first. */
  lemma WordCases(walk: seq<FileEntry>, words: seq<string>, i: nat, n: nat, w: nat)
    requires i < |walk| && Scanned(walk[i]) && n < |walk[i].content.lines| && w < |words|
    ensures Contains(walk[i].content.lines[n], words[w]) ==>
      HitsFrom(walk, words, i, n, w) == [Hit(i, n + 1, w)] + HitsFrom(walk, words, i, n, w + 1)
    ensures !Contains(walk[i].content.lines[n], words[w]) ==>
      HitsFrom(walk, words, i, n, w) == HitsFrom(walk, words, i, n, w + 1)
  {
    assert [] + HitsFrom(walk, words, i, n, w + 1) == HitsFrom(walk, words, i, n, w + 1);
  }

  /** The first match found after word `w` of a line comes after that word's match. */
  lemma LaterThanWord(walk: seq<FileEntry>, words: seq<string>, i: nat, n: nat, w: nat, rest: seq<Hit>)
    requires i < |walk| && Scanned(walk[i]) && n < |walk[i].content.lines| && w < |words|
    requires rest == HitsFrom(walk, words, i, n, w + 1) && rest != []
    ensures Before(Hit(i, n + 1, w), rest[0])
  {
    HitsFromIff(walk, words, i, n, w + 1, rest[0]);
  }

  /** Testing word `w` keeps the matches ahead in order. */
  lemma ChainedWord(walk: seq<FileEntry>, words: seq<string>, i: nat, n: nat, w: nat)
    requires i < |walk| && Scanned(walk[i]) && n < |walk[i].content.lines| && w < |words|
    requires Chained(HitsFrom(walk, words, i, n, w + 1))
    ensures Chained(HitsFrom(walk, words, i, n, w))
  {
    var rest := HitsFrom(walk, words, i, n, w + 1);
    WordCases(walk, words, i, n, w);
    if Contains(walk[i].content.lines[n], words[w]) {
      var c := [Hit(i, n + 1, w)] + rest;
      assert c[1..] == rest;
      if rest != [] {
        LaterThanWord(walk, words, i, n, w, rest);
        assert c[1] == rest[0];
      }
    }
  }

  /** The scan from any position lists each match before the next. */
  lemma {:induction false} HitsFromChained(walk: seq<FileEntry>, words: seq<string>, i: nat, n: nat, w: nat)
    requires Cursor(walk, words, i, n, w)
    ensures Chained(HitsFrom(walk, words, i, n, w))
    decreases |walk| - i, LineCount(walk, i) - n, |words| - w
  {
    if i == |walk| {
    } else if !Scanned(walk[i]) || n == |walk[i].content.lines| {
      HitsFromChained(walk, words, i + 1, 0, 0);
      FileEnd(walk, words, i, n, w);
    } else if w == |words| {
      HitsFromChained(walk, words, i, n + 1, 0);
      LineEnd(walk, words, i, n);
    } else {
      HitsFromChained(walk, words, i, n, w + 1);
      ChainedWord(walk, words, i, n, w);
    }
  }

  /** Findings come in walk order, then line order, then word order. */
  lemma HitsOrdered(walk: seq<FileEntry>, words: seq<string>)
    ensures Ordered(Hits(walk, words))
  {
    HitsFromChained(walk, words, 0, 0, 0);
    ChainedOrdered(Hits(walk, words));
  }

  /**
   * No (file, line, word) triple is found twice, however often the word
   * occurs on the line.
   */
  lemma HitsDistinct(walk: seq<FileEntry>, words: seq<string>, j: nat, k: nat)
    requires j < k < |Hits(walk, words)|
    ensures Hits(walk, words)[j] != Hits(walk, words)[k]
  {
    HitsOrdered(walk, words);
  }

  /** The finding at position `k` is the rendering of the match at position `k`. */
  lemma {:induction false} RenderAllAt(walk: seq<FileEntry>, words: seq<string>, hs: seq<Hit>, k: nat)
    requires k < |hs|
    ensures RenderAll(walk, words, hs)[k] == Render(walk, words, hs[k])
  {
    if k > 0 {
      RenderAllAt(walk, words, hs[1..], k - 1);
    }
  }

  /** Each finding is the text of the match in the same position. */
  lemma FindingsAt(walk: seq<FileEntry>, words: seq<string>, k: nat)
    requires k < |Hits(walk, words)|
    ensures |Findings(walk, words)| == |Hits(walk, words)|
    ensures IsHit(walk, words, Hits(walk, words)[k])
    ensures Findings(walk, words)[k] == Render(walk, words, Hits(walk, words)[k])
  {
    var h := Hits(walk, words)[k];
    HitsExact(walk, words, h);
    RenderAllAt(walk, words, Hits(walk, words), k);
  }

  /**
   * A finding is in the result exactly when it is the text of some real
   * match: the path of a scanned file, a 1-based line number of it, and a
   * word that line contains.
   */
  lemma FindingsExact(walk: seq<FileEntry>, words: seq<string>, s: string)
    ensures s in Findings(walk, words) <==>
      exists h :: IsHit(walk, words, h) && s == FindingText(PathOf(walk[h.file]), h.line, words[h.word])
  {
    var hs := Hits(walk, words);
    if s in Findings(walk, words) {
      var k :| 0 <= k < |Findings(walk, words)| && Findings(walk, words)[k] == s;
      FindingsAt(walk, words, k);
      HitsExact(walk, words, hs[k]);
    }
    if exists h :: IsHit(walk, words, h) && s == FindingText(PathOf(walk[h.file]), h.line, words[h.word]) {
      var h :| IsHit(walk, words, h) && s == FindingText(PathOf(walk[h.file]), h.line, words[h.word]);
      HitsExact(walk, words, h);
      var k :| 0 <= k < |hs| && hs[k] == h;
      FindingsAt(walk, words, k);
    }
  }

  /** The scan reports nothing exactly when no scanned line contains a tested word. */
  lemma NoFindingsIff(walk: seq<FileEntry>, words: seq<string>)
    ensures Findings(walk, words) == [] <==> forall h :: !IsHit(walk, words, h)
  {
    var hs := Hits(walk, words);
    if hs == [] {
      forall h ensures !IsHit(walk, words, h) {
        HitsExact(walk, words, h);
      }
    } else {
      HitsExact(walk, words, hs[0]);
    }
  }

  /**
   * Replacing one file by one that is not scanned (unreadable, say) removes
   * exactly that file's matches: every other file is still scanned as before.
   */
  lemma SkippedEntry(walk: seq<FileEntry>, words: seq<string>, k: nat, x: FileEntry, h: Hit)
    requires k < |walk| && !Scanned(x)
    ensures h in Hits(walk[k := x], words) <==> h in Hits(walk, words) && h.file != k
  {
    HitsExact(walk, words, h);
    HitsExact(walk[k := x], words, h);
  }

  /** A file that is not scanned contributes no finding, whatever it holds. */
  lemma ExcludedFileSilent(walk: seq<FileEntry>, words: seq<string>, k: nat, h: Hit)
    requires k < |walk| && !Scanned(walk[k])
    ensures h in Hits(walk, words) ==> h.file != k
  {
    HitsExact(walk, words, h);
  }

  /**
   * For a directory written as `/`-free components joined by `/`, the file
   * is under `.git` exactly when one whole component is `.git`.
   */
  lemma GitDirIff(e: FileEntry, components: seq<string>)
    requires |components| >= 1 && e.root == JoinWith(components, '/')
    requires forall j :: 0 <= j < |components| ==> '/' !in components[j]
    ensures InGitDir(e) <==> ".git" in components
  {
    SplitIff(e.root, '/', components);
  }

  /** A `.git` component anywhere in the directory excludes the file. */
  lemma GitDirExcluded(name: string, content: Content)
    ensures InGitDir(FileEntry("repo/.git/objects", name, content))
  {
    var cs := ["repo", ".git", "objects"];
    assert JoinWith(cs, '/') == "repo" + "/" + JoinWith(cs[1..], '/');
    assert JoinWith(cs[1..], '/') == ".git" + "/" + "objects";
    GitDirIff(FileEntry("repo/.git/objects", name, content), cs);
  }

  /** A component that only starts with `.git` does not exclude the file. */
  lemma GitHubNotExcluded(name: string, content: Content)
    ensures !InGitDir(FileEntry("repo/.github", name, content))
  {
    var cs := ["repo", ".github"];
    assert JoinWith(cs, '/') == "repo" + "/" + ".github";
    GitDirIff(FileEntry("repo/.github", name, content), cs);
  }

  /** A component that only ends with `.git` does not exclude the file. */
  lemma DotGitSuffixNotExcluded(name: string, content: Content)
    ensures !InGitDir(FileEntry("repo/x.git", name, content))
  {
    var cs := ["repo", "x.git"];
    assert JoinWith(cs, '/') == "repo" + "/" + "x.git";
    GitDirIff(FileEntry("repo/x.git", name, content), cs);
  }

  /** The text of a finding: path, colon, the decimal line number, and the word in quotes. */
  lemma FindingFormat(path: string, line: nat, word: string)
    ensures FindingText(path, line, word)
      == path + ":" + NatToString(line) + ": Banned word '" + word + "' found."
  {
    var parts := [path, ":", NatToString(line), ": Banned word '", word, "' found."];
    assert Concat(parts[5..]) == "' found.";
    assert Concat(parts[4..]) == word + "' found.";
    assert Concat(parts[3..]) == ": Banned word '" + word + "' found.";
    assert Concat(parts[2..]) == NatToString(line) + ": Banned word '" + word + "' found.";
    assert Concat(parts[1..]) == ":" + NatToString(line) + ": Banned word '" + word + "' found.";
  }

  // A worked case: one file whose third line mentions a mock.

  /** An ordered list with two entries has two different members. */
  lemma TwoDiffer(hs: seq<Hit>)
    requires Ordered(hs) && |hs| > 1
    ensures hs[0] in hs && hs[1] in hs && hs[0] != hs[1]
  {
  }

  /** An ordered list whose only member is `x` is `[x]`. */
  lemma OnlyMember(hs: seq<Hit>, x: Hit)
    requires Ordered(hs) && x in hs
    requires forall h :: h in hs ==> h == x
    ensures hs == [x]
  {
    assert hs[0] in hs;
    if |hs| > 1 {
      TwoDiffer(hs);
      assert false;
    }
  }

  const Example: FileEntry := FileEntry("src", "app.py", Readable(["import os", "x = 1", "this is a mock response"]))

  /** The example's directory is not under `.git`. */
  lemma ExampleScanned()
    ensures Scanned(Example)
  {
    GitDirIff(Example, ["src"]);
  }

  /** No banned word occurs on the example's first line. */
  lemma ExampleLine1(w: nat)
    requires w < |Banned|
    ensures !Contains("import os", Banned[w])
  {
    var line := "import os";
    if w == 0 { assert Banned[w] == "mock"; Lacks(line, "mock", 'k'); }
    else if w == 1 { assert Banned[w] == "fallback"; Lacks(line, "fallback", 'f'); }
    else if w == 2 { assert Banned[w] == "simulate"; Lacks(line, "simulate", 'l'); }
    else if w == 3 { assert Banned[w] == "pretend"; Lacks(line, "pretend", 'd'); }
    else { assert Banned[w] == "fake"; Lacks(line, "fake", 'f'); }
  }

  /** No banned word occurs on the example's second line. */
  lemma ExampleLine2(w: nat)
    requires w < |Banned|
    ensures !Contains("x = 1", Banned[w])
  {
    var line := "x = 1";
    if w == 0 { assert Banned[w] == "mock"; Lacks(line, "mock", 'm'); }
    else if w == 1 { assert Banned[w] == "fallback"; Lacks(line, "fallback", 'f'); }
    else if w == 2 { assert Banned[w] == "simulate"; Lacks(line, "simulate", 's'); }
    else if w == 3 { assert Banned[w] == "pretend"; Lacks(line, "pretend", 'p'); }
    else { assert Banned[w] == "fake"; Lacks(line, "fake", 'f'); }
  }

  /** "mock" occurs on the example's third line, at index 10. */
  lemma MockOnLine3()
    ensures Contains("this is a mock response", "mock")
  {
    var line := "this is a mock response";
    assert line[10..14] == "mock";
    ContainsAt(line, "mock", 10);
  }

  /** No banned word but "mock" occurs on the example's third line. */
  lemma ExampleLine3(w: nat)
    requires 1 <= w < |Banned|
    ensures !Contains("this is a mock response", Banned[w])
  {
    var line := "this is a mock response";
    if w == 1 { assert Banned[w] == "fallback"; Lacks(line, "fallback", 'f'); }
    else if w == 2 { assert Banned[w] == "simulate"; Lacks(line, "simulate", 'l'); }
    else if w == 3 { assert Banned[w] == "pretend"; Lacks(line, "pretend", 'd'); }
    else { assert Banned[w] == "fake"; Lacks(line, "fake", 'f'); }
  }

  /** The only match in the example is "mock" on line 3. */
  lemma ExampleIsHit(h: Hit)
    ensures IsHit([Example], Banned, h) <==> h == Hit(0, 3, 0)
  {
    ExampleScanned();
    if h.file == 0 && 1 <= h.line <= 3 && h.word < |Banned| {
      if h.line == 1 {
        ExampleLine1(h.word);
      } else if h.line == 2 {
        ExampleLine2(h.word);
      } else if h.word == 0 {
        assert Banned[0] == "mock";
        MockOnLine3();
      } else {
        ExampleLine3(h.word);
      }
    }
  }

  /** The scan of the example lists that one match. */
  lemma ExampleHits()
    ensures Hits([Example], Banned) == [Hit(0, 3, 0)]
  {
    var walk := [Example];
    var hs := Hits(walk, Banned);
    forall h | h in hs ensures h == Hit(0, 3, 0) {
      HitsExact(walk, Banned, h);
      ExampleIsHit(h);
    }
    HitsExact(walk, Banned, Hit(0, 3, 0));
    ExampleIsHit(Hit(0, 3, 0));
    HitsOrdered(walk, Banned);
    OnlyMember(hs, Hit(0, 3, 0));
  }

  /** The example is reported under `src/app.py`. */
  lemma ExamplePath()
    ensures PathOf(Example) == "src/app.py"
  {
    NotStartsWith("app.py", "/");
    NotEndsWith("src", "/");
    assert PathOf(Example) == "src" + "/" + "app.py";
  }

  /**
   * Scanning the example reports exactly one finding, for "mock" on line 3
   * of `src/app.py` (its text is given by `FindingFormat`).
   */
  lemma ExampleFindings()
    ensures Findings([Example], Banned) == [FindingText("src/app.py", 3, "mock")]
  {
    var walk := [Example];
    var hs := [Hit(0, 3, 0)];
    ExampleHits();
    ExamplePath();
    assert hs[1..] == [];
    assert Findings(walk, Banned) == [Render(walk, Banned, hs[0])];
  }
}
