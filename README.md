# Papers with Code to arXiv link converter: a Dafny model

This project models the core of a small tool. The tool rewrites links to the
retired Papers with Code site (`paperswithcode.com` and `cs.paperswithcode.com`)
in a text file into links to arXiv. It does this with a lookup table built from the
Papers with Code backup dataset. The tool has three parts, plus one helper:

- **Mapping builder** (`load_url_mapping`). It walks the parsed records of the
  dataset. Every record with a non-empty `paper_url` and a non-empty `paper_url_abs`
  maps its URL to the arXiv URL. When the URL mentions `paperswithcode.com`, the
  record also maps the `cs.paperswithcode.com` spelling of the URL. A later record
  overwrites an earlier one.
- **Discovery** (`find_paperswithcode_urls`). It scans the text with two patterns,
  `https?://paperswithcode\.com/paper/…` and `https?://cs\.paperswithcode\.com/paper/…`.
  Each match is a greedy run of characters that are not whitespace and none of
  `)` `]` `>` `"` `'` `;`. The whole trailing run of `"` `'` `;` `)` `]` `>` `,` `.` `!`
  is stripped from each match. The result is the distinct URLs, via a Python `set`.
- **Rewriter** (`convert_links`). It takes each discovered URL in turn. A mapped URL
  is replaced everywhere in the current text and counted. An unmapped URL is added
  to the not-found list.
- **Slug and title helper** (`extract_paper_info_from_url` in search_missing_papers.py).
  It cuts the paper slug out of a URL and turns it into a guessed title.

## How the model is built

- `wrappers.dfy` holds `Option`.
- `seqs.dfy` holds `NoDuplicates`, `Elements` and a cardinality lemma.
- `hosts.dfy` holds the host names and the `/paper/` path.
- `pystr.dfy` defines the Python `str` operations the code uses, with their
  semantics: left-to-right, non-overlapping `replace` and `split(sep)`, `join`,
  `split()` on whitespace and `capitalize()`. It also proves their laws.
- `url_mapping.dfy` models the loop of the mapping builder as a method. The method is
  proved against the left fold `Registered`.
- `discovery.dfy` models the regular-expression scan as the functions `MatchAt` and
  `FindAll`, and the `re.sub` strip as `StripTrailing`. The nested loops and the
  de-duplication are a method.
- `discovery_example.dfy` works discovery through two texts: a link in parentheses, and
  a bare link followed by a full stop.
- `rewriter.dfy` models the `convert_links` loop as a method. The method is proved
  against the left folds `Rewrite`, `Unmatched` and `MatchedCount`.
- `paper_info.dfy` models the helper as pure functions. It checks them against `Runs`,
  an independent definition of the title words.

Python leaves the iteration order of `list(set(urls))` unspecified. The method picks
the next element with `:|`, so every postcondition holds whatever order Python uses.
`ConvertLinks` returns the order it used as a ghost out-parameter. That lets its
text result be stated as `Rewrite(content, order, mapping)`.

The not-found list comes in the set's iteration order, so the model lets it be any
order. No discovered candidate is empty: every match starts with a prefix ending in
`/`, and `/` is never stripped (`Discovery.DiscoveredShape`).

Discovery is proved in both directions. `Discovery.DiscoveredShape` says that every
discovered URL has the shape of a link and occurs in the text. `Discovery.DiscoveryComplete`
says that every link in the text is discovered, unless it starts inside an earlier
match of the same pattern. `Discovery.FindAllOfNonOverlapping` says that every match
`re.findall` returns starts at such a place and runs to the greedy end of the token
characters there, so the matches do not overlap. `DiscoveryExample.ParenthesizedLink` and
`DiscoveryExample.SentenceEndingLink` work through two texts.

## Model

| member | source | states |
|---|---|---|
| UrlMapping.LoadUrlMapping | convert_pwc_to_arxiv.py:39-49 | The loop builds the fold `Registered` of the records. A key is present exactly when some usable record writes it, as its URL or as its cs variant. Each key maps to the arXiv URL of the last record that writes it. |
| UrlMapping.RegisteredKeys | convert_pwc_to_arxiv.py:39-49 | The keys of the dictionary are exactly the keys written by records with non-empty `paper_url` and `paper_url_abs`. |
| UrlMapping.LastWriteWins | convert_pwc_to_arxiv.py:39-49 | A key written by several records holds the target of the last of them. |
| UrlMapping.SkippedRecordAddsNothing | convert_pwc_to_arxiv.py:40-43 | A record with a missing, null or empty field leaves the dictionary unchanged. |
| UrlMapping.BothVariantsResolve | convert_pwc_to_arxiv.py:44-49 | After a usable record whose URL mentions the host, both its URL and its `cs.` variant map to its arXiv URL. |
| UrlMapping.CsVariantDiffers | convert_pwc_to_arxiv.py:47-48 | The `cs.` variant of a URL that mentions the host differs from the URL, so the second write of a record never undoes the first. |
| Discovery.TokenLength | convert_pwc_to_arxiv.py:74-75 | The greedy `[^\s\)\]\>\"\'\;]+` consumes the maximal run of token characters: all characters in it are token characters, and the next one is not. |
| Discovery.FindAllMatches | convert_pwc_to_arxiv.py:73-80 | Every match of `re.findall` is one of the two scheme prefixes of its host followed by at least one token character, and occurs in the text. It is greedy: where it occurs, the text ends right after it or goes on with a character that is no token character. |
| Discovery.FindAllComplete | convert_pwc_to_arxiv.py:80 | `re.findall` misses no match: every position where the pattern matches either has its match in the result, or lies strictly inside an earlier match in the result. |
| Discovery.MatchAtPrefix | convert_pwc_to_arxiv.py:74-75 | Where `https://` or `http://`, then the host, then `/paper/` is followed by a token character, the pattern matches there. The match runs to the end of the token characters. |
| Discovery.DiscoveryCompleteOnText | convert_pwc_to_arxiv.py:63-89 | The same as `DiscoveryComplete`, with a hypothesis on the text alone: when no match of the same pattern starting before `i` runs past `i`, the stripped greedy match at `i` is discovered. |
| Discovery.FindAllSound | convert_pwc_to_arxiv.py:80 | For prefixes made of token characters, every match `re.findall` returns from position `from` is the greedy match at some `i >= from` that no match at a position in `[from, i)` runs past, so `i` is not inside an earlier returned match. |
| Discovery.FindAllOfNonOverlapping | convert_pwc_to_arxiv.py:74-80 | Every match `re.findall` returns for either host is the greedy match at some position `i` of the text. No match of the pattern at any earlier position runs past `i`, so `i` does not lie inside an earlier match in the result and the returned matches do not overlap. |
| Discovery.DiscoveryComplete | convert_pwc_to_arxiv.py:63-89 | Every link in the text is discovered: when one of the four prefixes is followed by a token character, and that place is not inside an earlier match of the same pattern, the stripped greedy match starting there is among the discovered URLs. |
| Discovery.StripTrailing | convert_pwc_to_arxiv.py:85 | The result is a prefix of the URL. What was removed consists of strip characters only. The result does not end in a strip character, so the whole trailing run is gone. |
| Discovery.FindPapersWithCodeUrls | convert_pwc_to_arxiv.py:63-89 | The result has no duplicates and holds exactly the stripped matches of both patterns. |
| Discovery.DiscoveredShape | convert_pwc_to_arxiv.py:73-89 | Every discovered URL starts with one of the four prefixes (`http` or `https`, with or without `cs.`). It holds no whitespace and none of `)` `]` `>` `"` `'` `;`. It is non-empty, does not end in `,` `.` `!` or another strip character, and occurs in the text. |
| Discovery.NoCandidatesWithoutPath | convert_pwc_to_arxiv.py:73-80 | Text without `paperswithcode.com/paper/` yields no candidate. |
| DiscoveryExample.ParenthesizedLink | convert_pwc_to_arxiv.py:73-89 | In `(https://paperswithcode.com/paper/foo-bar).` the `)` ends the match, so exactly `https://paperswithcode.com/paper/foo-bar` is discovered. |
| DiscoveryExample.SentenceEndingLink | convert_pwc_to_arxiv.py:73-89 | In `See https://paperswithcode.com/paper/foo-bar.` the greedy match takes the full stop, and the strip removes it again, so exactly `https://paperswithcode.com/paper/foo-bar` is discovered. |
| Rewriter.ConvertLinks | convert_pwc_to_arxiv.py:91-119 | The text is the fold `Rewrite` over the order the loop used, which is any repetition-free listing of the discovered URLs. The count plus the not-found length equals the number of distinct discovered URLs. The not-found list is repetition-free and holds exactly the discovered unmapped URLs. With nothing mapped, the text is unchanged and the count is 0. When exactly one discovered URL `u` is in the mapping, the text is `content.replace(u, mapping[u])` and the count is 1. |
| Rewriter.CountInvariant | convert_pwc_to_arxiv.py:102-117 | Every URL the loop handles is either counted or listed as not found. |
| Rewriter.UnmatchedExactly | convert_pwc_to_arxiv.py:109-117 | The not-found list holds exactly the unmapped URLs, and has no repetitions when the input has none. |
| Rewriter.RewriteUnmapped | convert_pwc_to_arxiv.py:108-112 | When no URL is mapped, the text is returned unchanged and the count is 0. |
| Rewriter.ListingFolds | convert_pwc_to_arxiv.py:108-119 | Over any repetition-free listing of a list of URLs, the replaced count plus the not-found length is the number of distinct URLs. The not-found list is repetition-free and holds exactly the unmapped ones. Nothing mapped leaves the text unchanged with count 0; exactly one mapped URL `u` gives `text.replace(u, mapping[u])` with count 1. |
| Rewriter.RewriteOneMapped | convert_pwc_to_arxiv.py:108-113 | When exactly one URL of a repetition-free list is mapped, the fold is that one `replace` and the count is 1. |
| Rewriter.PrefixUrlsDependOnOrder | convert_pwc_to_arxiv.py:109-113 | Let `u` be space-free and let a second URL be `v == u + w`, with a non-empty, space-free tail `w` shorter than `u`, and let both targets be space-free and shorter than `u`. In the text `v + " " + u`, handling `v` first gives both targets. Handling `u` first corrupts `v` into the target of `u` followed by `w`. |
| PyStr.FindLeftmost | search_missing_papers.py:25 | `find` gives the leftmost occurrence: the pattern occurs at the result and nowhere before it. None is returned exactly when the pattern does not occur. |
| PyStr.ReplaceAbsent | convert_pwc_to_arxiv.py:112 | Replacing a string that does not occur leaves the text unchanged. |
| PyStr.ReplaceIsSplitJoin | convert_pwc_to_arxiv.py:112 | For a non-empty pattern, `s.replace(p, r)` equals `r.join(s.split(p))`. Replacing is cutting at the leftmost non-overlapping occurrences and gluing with the replacement. |
| PyStr.ReplaceLengthens | convert_pwc_to_arxiv.py:48 | A replacement longer than the pattern never shortens the text, and lengthens it when the pattern occurs. |
| PyStr.ReplaceChar | search_missing_papers.py:30 | Replacing one character by another maps the text character by character and keeps its length. |
| PyStr.SplitPiecesFree | search_missing_papers.py:25-27 | No piece of `s.split(sep)` contains `sep`. |
| PyStr.SplitHead | search_missing_papers.py:27 | `s.split(sep)[0]` is a prefix of `s` without `sep`, followed by `sep` when it is shorter than `s`. |
| PyStr.SplitLast | search_missing_papers.py:25 | `s.split(sep)[-1]` is a suffix of `s` without `sep`, with an occurrence of `sep` right before it when `sep` occurs. |
| PyStr.SplitJoinRoundTrip | search_missing_papers.py:25 | `sep.join(s.split(sep)) == s`. |
| PyStr.WordLength | search_missing_papers.py:30 | A word of `split()` is the maximal prefix without whitespace. |
| PyStr.SplitWhitespaceWords | search_missing_papers.py:30 | `split()` returns non-empty words without whitespace. |
| PyStr.SplitJoinWords | search_missing_papers.py:30-31 | Splitting a single-spaced line of words gives the words back. |
| PyStr.JoinWordsLayout | search_missing_papers.py:31 | Joining words with single spaces gives a line with no whitespace at either end. Every whitespace character in it is one space followed by a word character. The line is empty exactly when there are no words. |
| PyStr.CapitalizeKeepsLayout | search_missing_papers.py:31 | `capitalize()` keeps the length and the positions of whitespace and hyphens. |
| PyStr.CapitalizeIdempotent | search_missing_papers.py:31 | Capitalizing twice is capitalizing once. |
| PaperInfo.ExtractPaperInfoFromUrl | search_missing_papers.py:21-39 | The `url` field is the input. Without `/paper/`, the slug and the title are empty. |
| PaperInfo.CutAt | search_missing_papers.py:27 | `s.split(c)[0]` is the longest prefix of `s` without `c`. |
| PaperInfo.SlugShape | search_missing_papers.py:24-27 | The slug is the longest prefix, without `?` and `#`, of the last piece of the left-to-right, non-overlapping split on `/paper/`. That piece ends the URL, right after an occurrence of `/paper/`, and holds no `/paper/`. So the slug holds none of `?`, `#` and `/paper/`. |
| PaperInfo.OverlappingPaperPath | search_missing_papers.py:25 | With overlapping occurrences the last piece is not the text after the last occurrence: the slug of `x/paper/paper/y` is `paper/y`. |
| PaperInfo.HyphenSplitIsRuns | search_missing_papers.py:30 | `replace('-', ' ').split()` equals the maximal runs without hyphens and whitespace. |
| PaperInfo.NoRunsIffSeparators | search_missing_papers.py:30 | There are no runs exactly when every character is a hyphen or whitespace. |
| PaperInfo.TitleWords | search_missing_papers.py:29-31 | The title is the capitalized runs of the slug joined by single spaces. Its words are exactly those runs, one to one and in order. It holds no hyphen and no leading, trailing or doubled space. It is empty exactly when the slug holds only hyphens and whitespace. |
| PaperInfo.PaperTitle | search_missing_papers.py:21-39 | For every URL, the returned title is made from the returned slug as `TitleWords` states. |

## Left out

- Reading the JSON file and the text file, `json.load`, and the `FileNotFoundError` and `JSONDecodeError` exits (convert_pwc_to_arxiv.py:35-58). The mapping builder takes the already parsed records. A record field is `None` when the key is missing or its value is JSON null. Values that are not strings are not modelled.
- `save_not_found_list` and the other file output. In `main`: argument parsing, printing, and the floating-point percentage. These are I/O and presentation.
- The `print` calls inside `load_url_mapping` and `convert_links`, which are logging only.
- `search_arxiv_for_paper`. It only formats strings around `urllib.parse.quote`, a library call (percent-encoding per section 2.1 of RFC 3986) that is not part of this model.
- `process_missing_papers_file`, its line filter and its `main`: interactive input, `webbrowser.open` and file I/O.
- batch_convert.py, which globs directories and runs subprocesses.
- Unicode. Whitespace is the ASCII part of `str.isspace` (and of `\s` in `re`), and `capitalize()` maps ASCII letters only.
- The iteration order of a Python `set`: the model allows any order rather than CPython's hash order.
- PyStr.Split: requires a non-empty separator. Python raises `ValueError` for an empty one, and every caller passes a constant non-empty separator.
- The regular-expression engine in general. Only the two fixed patterns and the fixed strip pattern are modelled, each by a direct scanning function.
- Rewriter.PrefixUrlsDependOnOrder: shown only for a tail `w` shorter than `u`, with space-free `u`, `w` and targets. With a longer tail that itself contains `u` (such as `v == u + u`), handling `u` first rewrites inside the tail as well, and the lemma does not say what text results.
