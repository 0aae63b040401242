/**
 * The slug-to-title helper of search_missing_papers.py
 * (`extract_paper_info_from_url`): the slug is the last piece of the
 * left-to-right, non-overlapping split of a Papers with Code URL on "/paper/",
 * cut at the query and the fragment; the title
 * is the slug with hyphens read as spaces, split into words, each word
 * capitalized, joined by single spaces.
 */
module PaperInfo {
  import opened PyStr
  import opened Hosts

  /** The dictionary the helper returns, with its keys `url`, `slug` and `title`. */
  datatype PaperInfo = PaperInfo(url: string, slug: string, title: string)

  /** `pwc_url.split('/paper/')[-1].split('?')[0].split('#')[0]`. */
  function Slug(url: string): string {
    SlugAfter(url, PaperPath)
  }

  /** `url.split(sep)[-1].split('?')[0].split('#')[0]`. */
  function SlugAfter(url: string, sep: string): string
    requires |sep| > 0
  {
    var parts := Split(url, sep);
    Split(Split(parts[|parts| - 1], "?")[0], "#")[0]
  }

  /** `word.capitalize()` for every word, in order. */
  function CapitalizeAll(ws: seq<string>): (r: seq<string>)
    ensures |r| == |ws|
    ensures forall k :: 0 <= k < |ws| ==> r[k] == Capitalize(ws[k])
  {
    seq(|ws|, k requires 0 <= k < |ws| => Capitalize(ws[k]))
  }

  /** `' '.join(word.capitalize() for word in slug.replace('-', ' ').split())`. */
  function Title(slug: string): string {
    Join(CapitalizeAll(SplitWhitespace(Replace(slug, "-", " "))), " ")
  }

  /** `extract_paper_info_from_url`. */
  function ExtractPaperInfoFromUrl(pwcUrl: string): (r: PaperInfo)
    ensures r.url == pwcUrl
    ensures !Contains(pwcUrl, PaperPath) ==> r.slug == "" && r.title == ""
  {
    if Contains(pwcUrl, PaperPath) then
      var slug := Slug(pwcUrl);
      PaperInfo(pwcUrl, slug, Title(slug))
    else
      PaperInfo(pwcUrl, "", "")
  }

  // ------------------------------------------------- reference definition of the words

  /** A character that separates title words: a hyphen or whitespace. */
  predicate IsSeparator(c: char) {
    c == '-' || IsSpace(c)
  }

  /** Length of the longest prefix of `s` without separators. */
  function RunLength(s: string): (n: nat)
    ensures n <= |s|
    ensures forall k :: 0 <= k < n ==> !IsSeparator(s[k])
    ensures n < |s| ==> IsSeparator(s[n])
  {
    if |s| == 0 || IsSeparator(s[0]) then 0 else 1 + RunLength(s[1..])
  }

  /** The maximal runs of `s` that hold neither a hyphen nor whitespace, in order. */
  function Runs(s: string): seq<string>
    decreases |s|
  {
    if |s| == 0 then []
    else if IsSeparator(s[0]) then Runs(s[1..])
    else [s[..RunLength(s)]] + Runs(s[RunLength(s)..])
  }

  /** Each run is non-empty and holds no separator. */
  lemma {:induction false} RunsAreFree(s: string)
    ensures forall i :: 0 <= i < |Runs(s)| ==> |Runs(s)[i]| > 0
    ensures forall i, k :: 0 <= i < |Runs(s)| && 0 <= k < |Runs(s)[i]| ==> !IsSeparator(Runs(s)[i][k])
    decreases |s|
  {
    if |s| > 0 {
      if IsSeparator(s[0]) {
        RunsAreFree(s[1..]);
      } else {
        RunsAreFree(s[RunLength(s)..]);
      }
    }
  }

  /** There are no runs exactly when every character is a separator. */
  lemma {:induction false} NoRunsIffSeparators(s: string)
    ensures |Runs(s)| == 0 <==> forall k :: 0 <= k < |s| ==> IsSeparator(s[k])
    decreases |s|
  {
    if |s| > 0 && IsSeparator(s[0]) {
      NoRunsIffSeparators(s[1..]);
      assert forall k :: 1 <= k < |s| ==> s[k] == s[1..][k - 1];
    }
  }

  /** Splitting on whitespace after turning hyphens into spaces splits into the runs. */
  lemma {:induction false} HyphensAsSpaces(s: string, r: string)
    requires |r| == |s|
    requires forall k :: 0 <= k < |s| ==> r[k] == if s[k] == '-' then ' ' else s[k]
    ensures SplitWhitespace(r) == Runs(s)
    decreases |s|
  {
    if |s| > 0 {
      if IsSeparator(s[0]) {
        assert IsSpace(r[0]);
        HyphensAsSpaces(s[1..], r[1..]);
      } else {
        var n := RunLength(s);
        assert forall k :: 0 <= k < n ==> r[k] == s[k];
        assert n < |s| ==> IsSpace(r[n]);
        assert WordLength(r) == n;
        assert r[..n] == s[..n];
        HyphensAsSpaces(s[n..], r[n..]);
      }
    }
  }

  lemma {:induction false} HyphenSplitIsRuns(s: string)
    ensures SplitWhitespace(Replace(s, "-", " ")) == Runs(s)
  {
    ReplaceChar(s, '-', ' ');
    HyphensAsSpaces(s, Replace(s, "-", " "));
  }

  // ------------------------------------------------------------------ properties

  /** A title line: no whitespace at either end, every whitespace character a single
      space between two words, and no hyphen. */
  predicate IsTitleLine(t: string) {
    && (|t| > 0 ==> !IsSpace(t[0]) && !IsSpace(t[|t| - 1]))
    && (forall k :: 0 <= k < |t| && IsSpace(t[k]) ==> t[k] == ' ' && k + 1 < |t| && !IsSpace(t[k + 1]))
    && forall k :: 0 <= k < |t| ==> t[k] != '-'
  }

  /** The capitalized runs are words without hyphens, each already capitalized. */
  lemma {:induction false} CapitalizedRuns(s: string)
    ensures var ws := CapitalizeAll(Runs(s));
      && (forall i :: 0 <= i < |ws| ==> IsWord(ws[i]) && Capitalize(ws[i]) == ws[i])
      && forall i, k :: 0 <= i < |ws| && 0 <= k < |ws[i]| ==> ws[i][k] != '-'
  {
    var rs := Runs(s);
    var ws := CapitalizeAll(rs);
    RunsAreFree(s);
    forall i | 0 <= i < |ws|
      ensures IsWord(ws[i]) && Capitalize(ws[i]) == ws[i]
      ensures forall k :: 0 <= k < |ws[i]| ==> ws[i][k] != '-'
    {
      CapitalizeKeepsLayout(rs[i]);
      CapitalizeIdempotent(rs[i]);
      assert forall k :: 0 <= k < |rs[i]| ==> !IsSeparator(rs[i][k]);
    }
  }

  /** The title is the capitalized runs of the slug joined by single spaces; its words
      are those runs, one to one and in order; it is a well-formed title line; and it
      is empty exactly when the slug holds only hyphens and whitespace. */
  lemma {:induction false} TitleWords(slug: string)
    ensures Title(slug) == Join(CapitalizeAll(Runs(slug)), " ")
    ensures SplitWhitespace(Title(slug)) == CapitalizeAll(Runs(slug))
    ensures IsTitleLine(Title(slug))
    ensures Title(slug) == "" <==> forall k :: 0 <= k < |slug| ==> IsSeparator(slug[k])
  {
    HyphenSplitIsRuns(slug);
    var ws := CapitalizeAll(Runs(slug));
    CapitalizedRuns(slug);
    SplitJoinWords(ws);
    JoinWordsLayout(ws);
    JoinAvoids(ws, '-');
    NoRunsIffSeparators(slug);
  }

  /** `s.split(c)[0]` for a single character `c`: the longest prefix of `s` without `c`. */
  lemma {:induction false} CutAt(s: string, c: char)
    ensures var h := Split(s, [c])[0];
      && StartsWith(s, h)
      && (forall k :: 0 <= k < |h| ==> h[k] != c)
      && (|h| < |s| ==> s[|h|] == c)
  {
    var h := Split(s, [c])[0];
    SplitHead(s, [c]);
    ContainsChar(h, c);
    if |h| < |s| {
      assert s[|h|..|h| + 1] == [c];
    }
  }

  /** The last piece of the split, `split(sep)[-1]`, is a suffix right behind an
      occurrence of `sep`. */
  lemma {:induction false} LastPieceAfter(url: string, sep: string)
    requires |sep| > 0 && Contains(url, sep)
    ensures var parts, piece := Split(url, sep), LastPiece(url, sep);
      && parts[|parts| - 1] == piece
      && |piece| + |sep| <= |url|
      && url[|url| - |piece| - |sep|..] == sep + piece
      && !Contains(piece, sep)
  {
    var piece := LastPiece(url, sep);
    SplitLast(url, sep);
    var start := |url| - |piece| - |sep|;
    assert url[start..] == url[start..start + |sep|] + url[|url| - |piece|..];
  }

  /** The slug is the longest prefix, without '?' and '#', of the last piece of the
      split on `sep`, and holds no `sep`. */
  lemma {:induction false} SlugAfterShape(url: string, sep: string)
    requires |sep| > 0 && Contains(url, sep)
    ensures var parts, piece, slug := Split(url, sep), LastPiece(url, sep), SlugAfter(url, sep);
      && parts[|parts| - 1] == piece
      && |piece| + |sep| <= |url|
      && url[|url| - |piece| - |sep|..] == sep + piece
      && !Contains(piece, sep)
      && StartsWith(piece, slug)
      && (forall k :: 0 <= k < |slug| ==> slug[k] != '?' && slug[k] != '#')
      && (|slug| < |piece| ==> piece[|slug|] == '?' || piece[|slug|] == '#')
      && !Contains(slug, sep)
  {
    LastPieceAfter(url, sep);
    var piece := LastPiece(url, sep);
    assert SlugAfter(url, sep) == Split(Split(piece, "?")[0], "#")[0];
    CutQueryAndFragment(piece, sep);
  }

  /** `piece.split('?')[0].split('#')[0]` is the longest prefix of `piece` without '?'
      and '#'; it holds no `sep` when `piece` holds none. */
  lemma {:induction false} CutQueryAndFragment(piece: string, sep: string)
    requires !Contains(piece, sep)
    ensures var slug := Split(Split(piece, "?")[0], "#")[0];
      && StartsWith(piece, slug)
      && (forall k :: 0 <= k < |slug| ==> slug[k] != '?' && slug[k] != '#')
      && (|slug| < |piece| ==> piece[|slug|] == '?' || piece[|slug|] == '#')
      && !Contains(slug, sep)
  {
    var head := Split(piece, "?")[0];
    CutAt(piece, '?');
    var slug := Split(head, "#")[0];
    CutAt(head, '#');
    assert forall k :: 0 <= k < |slug| ==> slug[k] == head[k];
    if |slug| < |head| {
      assert piece[|slug|] == head[|slug|];
    }
    assert piece[..|slug|] == slug;
    PrefixAvoids(piece, sep, |slug|);
  }

  /** How the slug is cut from a URL holding "/paper/": `piece` is the last piece of
      the left-to-right, non-overlapping split on "/paper/", a suffix that follows an
      occurrence of "/paper/" and holds none, and the slug is its longest prefix
      without '?' and '#'. So the slug holds none of '?', '#' and "/paper/". */
  lemma {:induction false} SlugShape(url: string)
    requires Contains(url, PaperPath)
    ensures var parts, piece, slug := Split(url, PaperPath), LastPiece(url, PaperPath), ExtractPaperInfoFromUrl(url).slug;
      && parts[|parts| - 1] == piece
      && |piece| + |PaperPath| <= |url|
      && url[|url| - |piece| - |PaperPath|..] == PaperPath + piece
      && !Contains(piece, PaperPath)
      && StartsWith(piece, slug)
      && (forall k :: 0 <= k < |slug| ==> slug[k] != '?' && slug[k] != '#')
      && (|slug| < |piece| ==> piece[|slug|] == '?' || piece[|slug|] == '#')
      && !Contains(slug, PaperPath)
  {
    SlugAfterShape(url, PaperPath);
  }

  /** The title the helper returns is made from the slug it returns, for every URL:
      the capitalized runs of the slug joined by single spaces, a well-formed title
      line, empty exactly when the slug holds only hyphens and whitespace. */
  lemma {:induction false} PaperTitle(url: string)
    ensures var r := ExtractPaperInfoFromUrl(url);
      && r.title == Join(CapitalizeAll(Runs(r.slug)), " ")
      && SplitWhitespace(r.title) == CapitalizeAll(Runs(r.slug))
      && IsTitleLine(r.title)
      && (r.title == "" <==> forall k :: 0 <= k < |r.slug| ==> IsSeparator(r.slug[k]))
  {
    var r := ExtractPaperInfoFromUrl(url);
    if Contains(url, PaperPath) {
      TitleWords(r.slug);
    } else {
      assert CapitalizeAll(Runs("")) == [];
    }
  }

  /** Overlapping occurrences: in "x/paper/paper/y" the split cuts at the first
      "/paper/" only, because the second one overlaps it, so the slug is "paper/y"
      and not the "y" after the last occurrence. */
  lemma {:induction false} OverlappingPaperPath()
    ensures ExtractPaperInfoFromUrl("x/paper/paper/y").slug == "paper/y"
  {
    var url := "x/paper/paper/y";
    OverlappingFind();
    FindAbsent(url, PaperPath);
    assert Slug(url) == "paper/y" by {
      OverlappingSplit();
      NoQueryNoFragment();
    }
  }

  lemma {:induction false} OverlappingFind()
    ensures Find("x/paper/paper/y", PaperPath).Some?
    ensures Find("x/paper/paper/y", PaperPath).value == 1
  {
    var url := "x/paper/paper/y";
    assert url[..|PaperPath|] != PaperPath by {
      assert url[..|PaperPath|][0] == 'x' && PaperPath[0] == '/';
    }
    assert url[1..][..|PaperPath|] == PaperPath;
  }

  lemma {:induction false} OverlappingSplit()
    ensures Split("x/paper/paper/y", PaperPath) == ["x", "paper/y"]
  {
    var url := "x/paper/paper/y";
    OverlappingFind();
    SplitFound(url, PaperPath, 1);
    assert url[..1] == "x";
    assert url[8..] == "paper/y";
    assert "paper/y"[..|PaperPath|] != PaperPath by {
      assert "paper/y"[..|PaperPath|][0] == 'p' && PaperPath[0] == '/';
    }
    assert Find("paper/y"[1..], PaperPath).None?;
    assert Split("paper/y", PaperPath) == ["paper/y"];
  }

  lemma {:induction false} NoQueryNoFragment()
    ensures Split("paper/y", "?") == ["paper/y"]
    ensures Split("paper/y", "#") == ["paper/y"]
  {
    var t := "paper/y";
    assert forall k :: 0 <= k < |t| ==> t[k] != '?' && t[k] != '#';
    forall j: nat | j + 1 <= |t| ensures !OccursAt(t, "?", j) && !OccursAt(t, "#", j) {
      assert t[j..j + 1][0] == t[j];
    }
    FindAbsent(t, "?");
    FindAbsent(t, "#");
  }
}
