/**
 * Worked examples of candidate discovery: a Papers with Code link in
 * parentheses at the end of a sentence, and a bare link that ends a sentence.
 */
module DiscoveryExample {
  import opened Wrappers
  import opened PyStr
  import opened Hosts
  import opened Discovery

  /** The link of both examples: the prefix of the main host's pattern and a slug. */
  const FooBarUrl := "https://paperswithcode.com/paper/" + "foo-bar"

  /** The example text: the link in parentheses, then a full stop. */
  const ParenText := "(" + FooBarUrl + ")."

  /** Where the prefix and the link stand in the example text. */
  lemma {:induction false} ParenTextLayout()
    ensures |ParenText| == 43
    ensures ParenText[1..34] == HttpsPrefix(Host) && ParenText[1..41] == FooBarUrl
    ensures ParenText[0] == '(' && ParenText[41] == ')'
  {
    var prefix := "https://paperswithcode.com/paper/";
    assert HttpsPrefix(Host) == prefix;
    assert FooBarUrl[..33] == prefix;
    assert ParenText[1..41] == FooBarUrl;
    assert ParenText[1..34] == FooBarUrl[..33];
  }

  /** The slug `foo-bar` is the run of token characters after the prefix; the `)` ends it. */
  lemma {:induction false} ParenTextToken()
    ensures TokenLength(ParenText, 34) == 7
  {
    var s := ParenText;
    ParenTextLayout();
    assert s[34..41] == "foo-bar" by {
      assert s[1..41][33..40] == FooBarUrl[33..40];
    }
    assert TokenLength(s, 41) == 0;
    assert TokenLength(s, 40) == 1 && TokenLength(s, 39) == 2 && TokenLength(s, 38) == 3;
    assert TokenLength(s, 37) == 4 && TokenLength(s, 36) == 5 && TokenLength(s, 35) == 6;
  }

  /** The main host's pattern matches once, from the `h` to the closing `)`. */
  lemma {:induction false} ParenTextMainHost()
    ensures FindAllOf(ParenText, Host) == [FooBarUrl]
  {
    var s := ParenText;
    var https, http := HttpsPrefix(Host), HttpPrefix(Host);
    ParenTextLayout();
    ParenTextToken();
    assert !OccursAt(s, https, 0) && !OccursAt(s, http, 0) by {
      assert https[0] == 'h' && http[0] == 'h';
    }
    assert FindAll(s, https, http, 0) == FindAll(s, https, http, 1);
    assert OccursAt(s, https, 1);
    assert MatchAt(s, 1, https, http) == Some(41);
    FindAllSkip(s, https, http, 41, 43);
    assert FindAll(s, https, http, 41) == [];
    assert FindAll(s, https, http, 1) == [s[1..41]];
  }

  /** The sibling host's pattern does not match: `cs.` does not occur. */
  lemma {:induction false} ParenTextCsHost()
    ensures FindAllOf(ParenText, CsHost) == []
  {
    var s := ParenText;
    var https, http := HttpsPrefix(CsHost), HttpPrefix(CsHost);
    ParenTextLayout();
    assert |https| == 36 && |http| == 35;
    assert https[8] == 'c' && http[7] == 'c';
    assert forall k :: 7 <= k < 16 ==> s[k] != 'c' by {
      assert s[1..34][6..15] == "//papersw";
    }
    forall i | 0 <= i < |s| ensures MatchAt(s, i, https, http).None? {
      if i + |https| <= |s| {
        assert s[i..i + |https|][8] == s[i + 8];
      }
      if i + |http| <= |s| {
        assert s[i..i + |http|][7] == s[i + 7];
      }
    }
    FindAllSkip(s, https, http, 0, 43);
  }

  /** A link in parentheses at the end of a sentence: the closing `)` ends the match
      and the `.` after it is not taken, so exactly the bare URL is discovered. */
  lemma {:induction false} ParenthesizedLink()
    ensures Discovered(ParenText) == [FooBarUrl]
  {
    var s := ParenText;
    ParenTextMainHost();
    ParenTextCsHost();
    assert StripTrailing(FooBarUrl) == FooBarUrl by { assert FooBarUrl[|FooBarUrl| - 1] == 'r'; }
    assert Cleaned(FindAllOf(s, Host)) == [FooBarUrl];
    assert Cleaned(FindAllOf(s, CsHost)) == [];
    assert PatternHosts[..1] == [Host];
    assert PatternHosts[..1][..0] == [];
    assert Scan(s, [Host]) == Scan(s, []) + Cleaned(FindAllOf(s, Host));
    assert Scan(s, PatternHosts) == Scan(s, [Host]) + Cleaned(FindAllOf(s, CsHost));
  }

  /** The second example: a bare link ending a sentence, its full stop right after it. */
  const SentenceText := "See " + FooBarUrl + "."

  /** Where the prefix and the link stand in the second example. */
  lemma {:induction false} SentenceTextLayout()
    ensures |SentenceText| == 45
    ensures SentenceText[4..37] == HttpsPrefix(Host) && SentenceText[4..44] == FooBarUrl
    ensures SentenceText[..4] == "See " && SentenceText[44] == '.'
  {
    ParenTextLayout();
    assert ParenText[1..41][..33] == ParenText[1..34];
    assert SentenceText[4..44] == FooBarUrl;
    assert SentenceText[4..37] == FooBarUrl[..33];
  }

  /** The greedy run after the prefix takes `foo-bar.`: the full stop is a token
      character, and the run stops only at the end of the text. */
  lemma {:induction false} SentenceTextToken()
    ensures TokenLength(SentenceText, 37) == 8
  {
    var s := SentenceText;
    SentenceTextLayout();
    assert s[37..44] == "foo-bar" by {
      assert s[4..44][33..40] == FooBarUrl[33..40];
    }
    assert TokenLength(s, 45) == 0;
    assert TokenLength(s, 44) == 1 && TokenLength(s, 43) == 2 && TokenLength(s, 42) == 3;
    assert TokenLength(s, 41) == 4 && TokenLength(s, 40) == 5 && TokenLength(s, 39) == 6;
    assert TokenLength(s, 38) == 7;
  }

  /** Nothing matches in `See `, before the link. */
  lemma {:induction false} SentenceTextLead()
    ensures forall i :: 0 <= i < 4 ==> MatchAt(SentenceText, i, HttpsPrefix(Host), HttpPrefix(Host)).None?
  {
    var s := SentenceText;
    var https, http := HttpsPrefix(Host), HttpPrefix(Host);
    SentenceTextLayout();
    assert https[0] == 'h' && http[0] == 'h';
    forall i | 0 <= i < 4 ensures MatchAt(s, i, https, http).None? {
      assert s[..4][i] == s[i];
      if i + |https| <= |s| {
        assert s[i..i + |https|][0] == s[i];
      }
      if i + |http| <= |s| {
        assert s[i..i + |http|][0] == s[i];
      }
    }
  }

  /** The main host's pattern matches once, and the match keeps the full stop. */
  lemma {:induction false} SentenceTextMainHost()
    ensures FindAllOf(SentenceText, Host) == [FooBarUrl + "."]
  {
    var s := SentenceText;
    var https, http := HttpsPrefix(Host), HttpPrefix(Host);
    SentenceTextLead();
    FindAllSkip(s, https, http, 0, 4);
    assert MatchAt(s, 4, https, http) == Some(45) by {
      SentenceTextLayout();
      SentenceTextToken();
      assert OccursAt(s, https, 4);
    }
    assert FindAll(s, https, http, 4) == [s[4..45]];
    assert s[4..45] == FooBarUrl + "." by {
      SentenceTextLayout();
      assert s[4..45] == s[4..44] + [s[44]];
    }
  }

  /** Where the sibling host's `c` would have to stand, there is none. */
  lemma {:induction false} SentenceTextNoC()
    ensures |SentenceText| == 45
    ensures forall k :: 7 <= k < 18 ==> SentenceText[k] != 'c'
  {
    SentenceTextLayout();
    var t := SentenceText[4..37];
    assert t == "https://" + Host + PaperPath;
    assert t[..8] == "https://" && t[8..14] == Host[..6];
    assert "https://"[3..8] == "ps://" && Host[..6] == "papers";
    forall k | 7 <= k < 18 ensures SentenceText[k] != 'c' {
      assert SentenceText[k] == t[k - 4];
      if k < 12 {
        assert t[k - 4] == t[..8][k - 4] == "ps://"[k - 7];
      } else {
        assert t[k - 4] == t[8..14][k - 12] == "papers"[k - 12];
      }
    }
  }

  /** The sibling host's pattern does not match: `cs.` does not occur. */
  lemma {:induction false} SentenceTextCsHost()
    ensures FindAllOf(SentenceText, CsHost) == []
  {
    var s := SentenceText;
    var https, http := HttpsPrefix(CsHost), HttpPrefix(CsHost);
    assert |https| == 36 && |http| == 35 && |s| == 45 by {
      SentenceTextLayout();
    }
    assert https[8] == 'c' && http[7] == 'c';
    SentenceTextNoC();
    forall i | 0 <= i < |s| ensures MatchAt(s, i, https, http).None? {
      if i + |https| <= |s| {
        assert s[i..i + |https|][8] == s[i + 8];
      }
      if i + |http| <= |s| {
        assert s[i..i + |http|][7] == s[i + 7];
      }
    }
    FindAllSkip(s, https, http, 0, 45);
  }

  /** A bare link that ends a sentence: the greedy match takes the full stop, and
      the trailing strip removes it again, so exactly the URL is discovered. */
  lemma {:induction false} SentenceEndingLink()
    ensures Discovered(SentenceText) == [FooBarUrl]
  {
    var s := SentenceText;
    SentenceTextMainHost();
    SentenceTextCsHost();
    assert StripTrailing(FooBarUrl) == FooBarUrl by { assert FooBarUrl[|FooBarUrl| - 1] == 'r'; }
    assert StripTrailing(FooBarUrl + ".") == FooBarUrl by {
      assert (FooBarUrl + ".")[..|FooBarUrl|] == FooBarUrl;
    }
    assert Cleaned(FindAllOf(s, Host)) == [FooBarUrl];
    assert Cleaned(FindAllOf(s, CsHost)) == [];
    assert PatternHosts[..1] == [Host];
    assert PatternHosts[..1][..0] == [];
    assert Scan(s, [Host]) == Scan(s, []) + Cleaned(FindAllOf(s, Host));
    assert Scan(s, PatternHosts) == Scan(s, [Host]) + Cleaned(FindAllOf(s, CsHost));
  }
}
