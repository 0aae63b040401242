/**
 * The rewriter of convert_pwc_to_arxiv.py (`convert_links`): a loop over the
 * discovered URLs that replaces each mapped one everywhere in the current text,
 * counts the replacements and lists the URLs the mapping does not know.
 */
module Rewriter {
  import opened Seqs
  import opened PyStr
  import opened Discovery

  /** One iteration of the loop on the current text. */
  function Step(text: string, url: string, mapping: map<string, string>): string {
    if url in mapping then Replace(text, url, mapping[url]) else text
  }

  /** The text after the loop has handled `urls` in this order. */
  function Rewrite(text: string, urls: seq<string>, mapping: map<string, string>): string
    decreases |urls|
  {
    if |urls| == 0 then text
    else Step(Rewrite(text, urls[..|urls| - 1], mapping), urls[|urls| - 1], mapping)
  }

  /** The URLs of `urls` the mapping does not know, in the order of `urls`. */
  function Unmatched(urls: seq<string>, mapping: map<string, string>): seq<string>
    decreases |urls|
  {
    if |urls| == 0 then []
    else
      var last := urls[|urls| - 1];
      Unmatched(urls[..|urls| - 1], mapping) + (if last in mapping then [] else [last])
  }

  /** How many URLs of `urls` the mapping knows. */
  function MatchedCount(urls: seq<string>, mapping: map<string, string>): nat
    decreases |urls|
  {
    if |urls| == 0 then 0
    else MatchedCount(urls[..|urls| - 1], mapping) + (if urls[|urls| - 1] in mapping then 1 else 0)
  }

  /** `convert_links`. The ghost `pwcUrls` is the order in which the loop met the
      discovered URLs; it is any order without repetitions, so every clause below
      holds whichever order the set produced. */
  method ConvertLinks(content: string, urlMapping: map<string, string>)
    returns (updatedContent: string, replacedCount: nat, notFoundUrls: seq<string>, ghost pwcUrls: seq<string>)
    ensures NoDuplicates(pwcUrls) && forall u :: u in pwcUrls <==> u in Discovered(content)
    ensures updatedContent == Rewrite(content, pwcUrls, urlMapping)
    ensures notFoundUrls == Unmatched(pwcUrls, urlMapping)
    ensures replacedCount == MatchedCount(pwcUrls, urlMapping)
    ensures replacedCount + |notFoundUrls| == |Elements(Discovered(content))|
    ensures NoDuplicates(notFoundUrls)
    ensures forall u :: u in notFoundUrls <==> u in Discovered(content) && u !in urlMapping
    ensures (forall u :: u in Discovered(content) ==> u !in urlMapping) ==>
      updatedContent == content && replacedCount == 0
    ensures forall u ::
      (u in Discovered(content) && u in urlMapping && forall v :: v in Discovered(content) && v in urlMapping ==> v == u)
      ==> updatedContent == Replace(content, u, urlMapping[u]) && replacedCount == 1
  {
    var urls := FindPapersWithCodeUrls(content);
    pwcUrls := urls;
    replacedCount := 0;
    notFoundUrls := [];
    updatedContent := content;
    for i := 0 to |urls|
      invariant updatedContent == Rewrite(content, urls[..i], urlMapping)
      invariant notFoundUrls == Unmatched(urls[..i], urlMapping)
      invariant replacedCount == MatchedCount(urls[..i], urlMapping)
    {
      assert urls[..i + 1][..i] == urls[..i];
      var pwcUrl := urls[i];
      if pwcUrl in urlMapping {
        var arxivUrl := urlMapping[pwcUrl];
        updatedContent := Replace(updatedContent, pwcUrl, arxivUrl);
        replacedCount := replacedCount + 1;
      } else {
        notFoundUrls := notFoundUrls + [pwcUrl];
      }
    }
    assert urls[..|urls|] == urls;
    ListingFolds(content, urls, urlMapping, Discovered(content));
  }

  /** The folds over any repetition-free listing `urls` of the URLs in `found`: every
      distinct URL is counted once as replaced or listed once as not found; nothing
      mapped leaves the text alone; exactly one mapped URL is one `replace`. */
  lemma {:induction false} ListingFolds(text: string, urls: seq<string>, mapping: map<string, string>, found: seq<string>)
    requires NoDuplicates(urls) && forall u :: u in urls <==> u in found
    ensures MatchedCount(urls, mapping) + |Unmatched(urls, mapping)| == |Elements(found)|
    ensures NoDuplicates(Unmatched(urls, mapping))
    ensures forall u :: u in Unmatched(urls, mapping) <==> u in found && u !in mapping
    ensures (forall u :: u in found ==> u !in mapping) ==>
      Rewrite(text, urls, mapping) == text && MatchedCount(urls, mapping) == 0
    ensures forall u ::
      (u in found && u in mapping && forall v :: v in found && v in mapping ==> v == u)
      ==> Rewrite(text, urls, mapping) == Replace(text, u, mapping[u]) && MatchedCount(urls, mapping) == 1
  {
    CountInvariant(urls, mapping);
    assert Elements(urls) == Elements(found);
    DistinctCardinality(urls);
    UnmatchedExactly(urls, mapping);
    if forall u :: u in found ==> u !in mapping {
      RewriteUnmapped(text, urls, mapping);
    }
    forall u | u in found && u in mapping && (forall v :: v in found && v in mapping ==> v == u)
      ensures Rewrite(text, urls, mapping) == Replace(text, u, mapping[u]) && MatchedCount(urls, mapping) == 1
    {
      RewriteOneMapped(text, urls, mapping, u);
    }
  }

  /** Every URL is counted as replaced or listed as not found, never both. */
  lemma {:induction false} CountInvariant(urls: seq<string>, mapping: map<string, string>)
    ensures MatchedCount(urls, mapping) + |Unmatched(urls, mapping)| == |urls|
    decreases |urls|
  {
    if |urls| > 0 {
      CountInvariant(urls[..|urls| - 1], mapping);
    }
  }

  /** The not-found list holds exactly the unmapped URLs, each as often as in `urls`:
      once, when `urls` has no repetitions. */
  lemma {:induction false} UnmatchedExactly(urls: seq<string>, mapping: map<string, string>)
    ensures forall u :: u in Unmatched(urls, mapping) <==> u in urls && u !in mapping
    ensures NoDuplicates(urls) ==> NoDuplicates(Unmatched(urls, mapping))
    decreases |urls|
  {
    if |urls| > 0 {
      var init := urls[..|urls| - 1];
      UnmatchedExactly(init, mapping);
      assert urls == init + [urls[|urls| - 1]];
      if NoDuplicates(urls) {
        assert NoDuplicates(init);
        assert urls[|urls| - 1] !in init;
      }
    }
  }

  /** When the mapping knows none of the URLs, the text stays as it was and
      nothing is counted. */
  lemma {:induction false} RewriteUnmapped(text: string, urls: seq<string>, mapping: map<string, string>)
    requires forall u :: u in urls ==> u !in mapping
    ensures Rewrite(text, urls, mapping) == text
    ensures MatchedCount(urls, mapping) == 0
    decreases |urls|
  {
    if |urls| > 0 {
      var init := urls[..|urls| - 1];
      assert forall u :: u in init ==> u in urls;
      RewriteUnmapped(text, init, mapping);
    }
  }

  /** When exactly one URL of a repetition-free `urls` is mapped, the loop replaces that
      URL everywhere in the text, leaves the rest alone, and counts 1. */
  lemma {:induction false} RewriteOneMapped(text: string, urls: seq<string>, mapping: map<string, string>, u: string)
    requires NoDuplicates(urls) && u in urls && u in mapping
    requires forall v :: v in urls && v in mapping ==> v == u
    ensures Rewrite(text, urls, mapping) == Replace(text, u, mapping[u])
    ensures MatchedCount(urls, mapping) == 1
    decreases |urls|
  {
    var init, last := urls[..|urls| - 1], urls[|urls| - 1];
    assert urls == init + [last];
    assert NoDuplicates(init);
    if last == u {
      assert u !in init;
      RewriteUnmapped(text, init, mapping);
    } else {
      assert u in init;
      RewriteOneMapped(text, init, mapping, u);
    }
  }

  /** The loop's result depends on the order of the set when one discovered URL `u`
      is a prefix of another, `v == u + w`: in the text `v + " " + u`, handling `v`
      first rewrites both links, while handling `u` first also rewrites the head of
      `v`, which `v` then no longer matches. Shown for space-free `u` and `w` with the
      tail `w` shorter than `u`, and targets shorter than `u`; a longer tail may
      itself contain `u` (as in `v == u + u`) and be rewritten too. */
  lemma {:induction false} PrefixUrlsDependOnOrder(u: string, w: string, a: string, b: string)
    requires NoSpace(u) && NoSpace(w) && 0 < |w| < |u|
    requires NoSpace(a) && NoSpace(b) && |a| < |u| && |b| < |u|
    ensures var v, m := u + w, map[u := a, u + w := b];
      var text := v + " " + u;
      && Rewrite(text, [v, u], m) == b + " " + a
      && Rewrite(text, [u, v], m) == a + w + " " + a
  {
    var v, m := u + w, map[u := a, u + w := b];
    var text := v + " " + u;
    RewriteTwo(text, v, u, m);
    RewriteTwo(text, u, v, m);
    assert |v| > |u|;
    assert m[u] == a && m[v] == b;
    LongerFirst(u, w, a, b);
    ShorterFirst(u, w, a, b);
  }

  /** The loop over two URLs is two steps. */
  lemma {:induction false} RewriteTwo(text: string, x: string, y: string, mapping: map<string, string>)
    ensures Rewrite(text, [x, y], mapping) == Step(Step(text, x, mapping), y, mapping)
  {
    assert [x, y][..1] == [x] && [x][..0] == [];
    assert Rewrite(text, [x], mapping) == Step(Rewrite(text, [], mapping), x, mapping);
  }

  /** The longer URL first: it is replaced at the head, the shorter one then only at the tail. */
  lemma {:induction false} LongerFirst(u: string, w: string, a: string, b: string)
    requires NoSpace(u) && NoSpace(w) && 0 < |w| < |u|
    requires NoSpace(a) && NoSpace(b) && |a| < |u| && |b| < |u|
    ensures var v := u + w;
      Replace(Replace(v + " " + u, v, b), u, a) == b + " " + a
  {
    var v := u + w;
    assert NoSpace(v);
    var tail := " " + u;
    assert v + " " + u == v + tail;
    ReplaceHead(v, tail, b);
    AbsentAroundSpace("", u, v);
    assert "" + " " + u == tail;
    ReplaceAbsent(tail, v, b);
    assert Replace(v + " " + u, v, b) == b + " " + u;
    SkipPastSpace(b, u, a);
  }

  /** The shorter URL first: both links lose their head, so the longer one no longer occurs. */
  lemma {:induction false} ShorterFirst(u: string, w: string, a: string, b: string)
    requires NoSpace(u) && NoSpace(w) && 0 < |w| < |u|
    requires NoSpace(a) && NoSpace(b) && |a| < |u| && |b| < |u|
    ensures var v := u + w;
      Replace(Replace(v + " " + u, u, a), v, b) == a + w + " " + a
  {
    var v := u + w;
    assert NoSpace(v);
    assert v + " " + u == u + (w + " " + u);
    ReplaceHead(u, w + " " + u, a);
    SkipPastSpace(w, u, a);
    var t := a + w + " " + a;
    assert a + (w + " " + a) == t;
    AbsentAroundSpace(a + w, a, v);
    ReplaceAbsent(t, v, b);
  }

  /** In `x + " " + u`, with `x` shorter than `u` and `u` space-free, only the tail is replaced. */
  lemma {:induction false} SkipPastSpace(x: string, u: string, rep: string)
    requires NoSpace(u) && |x| < |u|
    ensures Replace(x + " " + u, u, rep) == x + " " + rep
  {
    var s := x + " " + u;
    forall j: nat | j < |x + " "| ensures !OccursAt((x + " ") + u, u, j) {
      if OccursAt(s, u, j) {
        OccurrenceAvoidsSpace(s, u, j, |x|);
      }
    }
    ReplaceSkip(x + " ", u, u, rep);
    ReplaceWhole(u, rep);
  }
}
