/**
 * The mapping builder of convert_pwc_to_arxiv.py (`load_url_mapping`): a loop
 * over the records of the backup dataset that fills a dictionary from Papers
 * with Code URLs (and their cs.paperswithcode.com variants) to arXiv URLs.
 */
module UrlMapping {
  import opened Wrappers
  import opened PyStr
  import opened Hosts

  /** One entry of the backup dataset. A field is None when the key is missing
      or its value is JSON null; the other keys of an entry play no part. */
  datatype Record = Record(paperUrl: Option<string>, paperUrlAbs: Option<string>)

  /** `entry.get(key, '')` followed by Python truthiness: a present, non-empty string. */
  predicate Present(field: Option<string>) {
    field.Some? && field.value != ""
  }

  /** The test `if paper_url and paper_url_abs`. */
  predicate IsUsable(r: Record) {
    Present(r.paperUrl) && Present(r.paperUrlAbs)
  }

  /** `paper_url.replace('paperswithcode.com', 'cs.paperswithcode.com')`. */
  function CsVariant(url: string): string {
    Replace(url, Host, CsHost)
  }

  /** The record `r` writes the key `k`: its own URL, or the variant when the URL
      mentions the host. */
  predicate Writes(r: Record, k: string) {
    && IsUsable(r)
    && (k == r.paperUrl.value || (Contains(r.paperUrl.value, Host) && k == CsVariant(r.paperUrl.value)))
  }

  /** One pass of the loop body: the dictionary after processing `r`. */
  function Register(m: map<string, string>, r: Record): map<string, string> {
    if !IsUsable(r) then m
    else
      var url, abs := r.paperUrl.value, r.paperUrlAbs.value;
      var m1 := m[url := abs];
      if Contains(url, Host) then m1[CsVariant(url) := abs] else m1
  }

  /** The dictionary after processing `data` in order, starting from `{}`. */
  function Registered(data: seq<Record>): map<string, string>
    decreases |data|
  {
    if |data| == 0 then map[] else Register(Registered(data[..|data| - 1]), data[|data| - 1])
  }

  /** `i` is the last index of `data` whose record writes the key `k`. */
  ghost predicate IsLastWriter(data: seq<Record>, i: int, k: string) {
    0 <= i < |data| && Writes(data[i], k) && forall j :: i < j < |data| ==> !Writes(data[j], k)
  }

  /** `load_url_mapping` without the file read and JSON parsing: the loop over the
      already parsed records. */
  method LoadUrlMapping(data: seq<Record>) returns (mapping: map<string, string>)
    ensures mapping == Registered(data)
    ensures forall k :: k in mapping <==> exists i :: 0 <= i < |data| && Writes(data[i], k)
    ensures forall i, k :: IsLastWriter(data, i, k) ==> k in mapping && mapping[k] == data[i].paperUrlAbs.value
  {
    mapping := map[];
    for n := 0 to |data|
      invariant mapping == Registered(data[..n])
    {
      assert data[..n + 1][..n] == data[..n];
      var entry := data[n];
      var paperUrl := if entry.paperUrl.Some? then entry.paperUrl.value else "";
      var paperUrlAbs := if entry.paperUrlAbs.Some? then entry.paperUrlAbs.value else "";
      if paperUrl != "" && paperUrlAbs != "" {
        mapping := mapping[paperUrl := paperUrlAbs];
        if Contains(paperUrl, Host) {
          var csUrl := Replace(paperUrl, Host, CsHost);
          mapping := mapping[csUrl := paperUrlAbs];
        }
      }
    }
    assert data[..|data|] == data;
    RegisteredKeys(data);
    forall i, k | IsLastWriter(data, i, k)
      ensures k in mapping && mapping[k] == data[i].paperUrlAbs.value
    {
      LastWriteWins(data, i, k);
    }
  }

  /** The variant of a URL that mentions the host is a different string, so the
      two writes of one record never collide. */
  lemma {:induction false} CsVariantDiffers(url: string)
    requires Contains(url, Host)
    ensures CsVariant(url) != url
  {
    ReplaceLengthens(url, Host, CsHost);
  }

  /** A record that is skipped leaves the dictionary as it was. */
  lemma {:induction false} SkippedRecordAddsNothing(data: seq<Record>, r: Record)
    requires !IsUsable(r)
    ensures Registered(data + [r]) == Registered(data)
  {
    assert (data + [r])[..|data|] == data;
  }

  /** The keys of the dictionary are exactly the keys some usable record writes. */
  lemma {:induction false} RegisteredKeys(data: seq<Record>)
    ensures forall k :: k in Registered(data) <==> exists i :: 0 <= i < |data| && Writes(data[i], k)
    decreases |data|
  {
    if |data| > 0 {
      var init := data[..|data| - 1];
      RegisteredKeys(init);
      forall k ensures k in Registered(data) <==> exists i :: 0 <= i < |data| && Writes(data[i], k) {
        if k in Registered(data) {
          if !Writes(data[|data| - 1], k) {
            assert k in Registered(init);
            var i :| 0 <= i < |init| && Writes(init[i], k);
            assert data[i] == init[i];
          }
        } else {
          assert Registered(data) == Register(Registered(init), data[|data| - 1]);
          assert k !in Registered(init);
          forall i | 0 <= i < |data| ensures !Writes(data[i], k) {
            if i < |init| {
              assert data[i] == init[i];
            }
          }
        }
      }
    }
  }

  /** Last write wins: a key maps to the target of the last usable record that writes it. */
  lemma {:induction false} LastWriteWins(data: seq<Record>, i: int, k: string)
    requires IsLastWriter(data, i, k)
    ensures k in Registered(data) && Registered(data)[k] == data[i].paperUrlAbs.value
    decreases |data|
  {
    var n := |data| - 1;
    var init := data[..n];
    if i < n {
      assert IsLastWriter(init, i, k) by {
        forall j | i < j < |init| ensures !Writes(init[j], k) {
          assert init[j] == data[j];
        }
      }
      LastWriteWins(init, i, k);
      assert !Writes(data[n], k);
    } else {
      var r := data[n];
      if Contains(r.paperUrl.value, Host) {
        CsVariantDiffers(r.paperUrl.value);
      }
    }
  }

  /** Both host spellings of the URL of the last record resolve to its arXiv URL. */
  lemma {:induction false} BothVariantsResolve(data: seq<Record>, r: Record)
    requires IsUsable(r) && Contains(r.paperUrl.value, Host)
    ensures var m := Registered(data + [r]);
      && r.paperUrl.value in m && m[r.paperUrl.value] == r.paperUrlAbs.value
      && CsVariant(r.paperUrl.value) in m && m[CsVariant(r.paperUrl.value)] == r.paperUrlAbs.value
  {
    assert (data + [r])[..|data|] == data;
    CsVariantDiffers(r.paperUrl.value);
  }
}
