/**
 * The tracking-parameter stripper (`cleanUrl` and `TRACKING_PARAMS` in popup.js).
 *
 * The platform URL parser is not part of this model: a caller hands over the
 * outcome of parsing the raw string, `None` when `new URL(raw)` throws.  A parsed
 * URL is everything before the query, the query as ordered key/value pairs, and
 * the fragment.
 */
module UrlCleaner {
  import opened Text

  /** The fixed denylist of tracking query keys; every entry is lower-case. */
  const TrackingParams: set<string> := {
    // Google Analytics / UTM
    "utm_source", "utm_medium", "utm_campaign", "utm_term", "utm_content",
    "utm_id", "utm_source_platform", "utm_creative_format", "utm_marketing_tactic",
    // Google Ads
    "gclid", "gclsrc", "dclid", "gbraid", "wbraid",
    // Facebook, Microsoft Ads, Twitter / X, Instagram
    "fbclid", "msclkid", "twclid", "igshid",
    // Mailchimp, Google Analytics client id
    "mc_cid", "mc_eid", "_ga", "_gl",
    // Spotify, Google Shopping, Adobe, Zanox
    "si", "srsltid", "s_kwcid", "zanpid",
    // generic referral parameters
    "ref", "referrer", "source"
  }

  /** `denylist.has(key.toLowerCase())` */
  predicate Denied(key: string, denylist: set<string>) {
    Lower(key) in denylist
  }

  /** A key is a tracking key when its lower-case form is in the denylist; spelling case does not matter. */
  predicate IsTrackingKey(key: string) {
    Denied(key, TrackingParams)
  }

  datatype Param = Param(key: string, value: string)

  /**
   * A parsed URL: `base` is scheme, authority and path; `query` is None when
   * the URL has no `?`, otherwise its pairs in order; `fragment` is None when
   * the URL has no `#`, otherwise the text after it.
   */
  datatype Url = Url(base: string, query: Option<seq<Param>>, fragment: Option<string>)

  /** The pairs `url.searchParams` iterates over. */
  function Pairs(u: Url): seq<Param> {
    if u.query.Some? then u.query.value else []
  }

  function PairText(p: Param): string {
    p.key + "=" + p.value
  }

  /** The query text: the pairs joined by `&`. */
  function Encode(ps: seq<Param>): string {
    if ps == [] then ""
    else if |ps| == 1 then PairText(ps[0])
    else PairText(ps[0]) + "&" + Encode(ps[1..])
  }

  /** `url.toString()` */
  function Serialize(u: Url): string {
    u.base
    + (match u.query case None => "" case Some(ps) => "?" + Encode(ps))
    + (match u.fragment case None => "" case Some(f) => "#" + f)
  }

  // ---------------------------------------------------------------------------
  // Deleting the denied pairs (stated for any denylist; cleanUrl uses TrackingParams)

  /** The pairs that survive cleaning: those whose key is not denied, in their original order. */
  function Strip(ps: seq<Param>, denylist: set<string>): seq<Param> {
    if ps == [] then []
    else (if Denied(ps[0].key, denylist) then [] else [ps[0]]) + Strip(ps[1..], denylist)
  }

  /** A pair survives exactly when it was there and its key is not denied. */
  lemma {:induction false} StripMembers(ps: seq<Param>, denylist: set<string>, p: Param)
    ensures p in Strip(ps, denylist) <==> p in ps && !Denied(p.key, denylist)
  {
    if ps != [] {
      StripMembers(ps[1..], denylist, p);
      assert p in ps <==> p == ps[0] || p in ps[1..];
    }
  }

  /** Stripping works pair by pair, so it keeps the relative order of what survives. */
  lemma {:induction false} StripAppend(a: seq<Param>, b: seq<Param>, denylist: set<string>)
    ensures Strip(a + b, denylist) == Strip(a, denylist) + Strip(b, denylist)
  {
    if a == [] {
      assert a + b == b;
    } else {
      assert (a + b)[0] == a[0];
      assert (a + b)[1..] == a[1..] + b;
      StripAppend(a[1..], b, denylist);
    }
  }

  /** Every denied pair is gone, and every other pair survives as often as it occurred. */
  lemma {:induction false} StripCounts(ps: seq<Param>, denylist: set<string>, p: Param)
    ensures multiset(Strip(ps, denylist))[p] == if Denied(p.key, denylist) then 0 else multiset(ps)[p]
  {
    if ps != [] {
      StripCounts(ps[1..], denylist, p);
      assert ps == [ps[0]] + ps[1..];
    }
  }

  /** Stripping changes the pairs exactly when one of them has a denied key. */
  lemma {:induction false} StripUnchangedIff(ps: seq<Param>, denylist: set<string>)
    ensures Strip(ps, denylist) == ps <==> forall p :: p in ps ==> !Denied(p.key, denylist)
  {
    if ps != [] {
      if forall p :: p in ps ==> !Denied(p.key, denylist) {
        assert forall p :: p in ps[1..] ==> p in ps;
        StripUnchangedIff(ps[1..], denylist);
      } else {
        var q :| q in ps && Denied(q.key, denylist);
        StripMembers(ps, denylist, q);
      }
    }
  }

  lemma StripIdempotent(ps: seq<Param>, denylist: set<string>)
    ensures Strip(Strip(ps, denylist), denylist) == Strip(ps, denylist)
  {
    forall p | p in Strip(ps, denylist) ensures !Denied(p.key, denylist) {
      StripMembers(ps, denylist, p);
    }
    StripUnchangedIff(Strip(ps, denylist), denylist);
  }

  /** `url.searchParams.delete(name)`: removes every pair whose key is exactly `name`. */
  function DeleteKey(ps: seq<Param>, name: string): seq<Param> {
    if ps == [] then []
    else (if ps[0].key == name then [] else [ps[0]]) + DeleteKey(ps[1..], name)
  }

  /** `[...url.searchParams.keys()]`: one key per pair, repeats included. */
  function KeysOf(ps: seq<Param>): (ks: seq<string>)
    ensures |ks| == |ps|
    ensures forall i :: 0 <= i < |ps| ==> ks[i] == ps[i].key
  {
    seq(|ps|, i requires 0 <= i < |ps| => ps[i].key)
  }

  /** The pairs left once the denied keys among `visited` have been deleted. */
  ghost function Survivors(ps: seq<Param>, denylist: set<string>, visited: seq<string>): seq<Param> {
    if ps == [] then []
    else (if Denied(ps[0].key, denylist) && ps[0].key in visited then [] else [ps[0]])
         + Survivors(ps[1..], denylist, visited)
  }

  lemma {:induction false} SurvivorsOfNothing(ps: seq<Param>, denylist: set<string>)
    ensures Survivors(ps, denylist, []) == ps
  {
    if ps != [] {
      SurvivorsOfNothing(ps[1..], denylist);
    }
  }

  lemma {:induction false} SurvivorsStep(ps: seq<Param>, denylist: set<string>, visited: seq<string>, k: string)
    ensures Survivors(ps, denylist, visited + [k])
         == if Denied(k, denylist) then DeleteKey(Survivors(ps, denylist, visited), k)
            else Survivors(ps, denylist, visited)
  {
    if ps != [] {
      var h := ps[0];
      var rest := Survivors(ps[1..], denylist, visited);
      SurvivorsStep(ps[1..], denylist, visited, k);
      assert h.key in visited + [k] <==> h.key in visited || h.key == k;
      if Denied(h.key, denylist) && h.key in visited {
        assert Survivors(ps, denylist, visited) == rest;
      } else {
        assert Survivors(ps, denylist, visited) == [h] + rest;
        assert ([h] + rest)[0] == h && ([h] + rest)[1..] == rest;
      }
    }
  }

  lemma {:induction false} SurvivorsOfAllKeys(ps: seq<Param>, denylist: set<string>, visited: seq<string>)
    requires forall p :: p in ps ==> p.key in visited
    ensures Survivors(ps, denylist, visited) == Strip(ps, denylist)
  {
    if ps != [] {
      assert forall p :: p in ps[1..] ==> p in ps;
      SurvivorsOfAllKeys(ps[1..], denylist, visited);
    }
  }

  /** Visiting one more key of the snapshot deletes it when it is denied. */
  lemma VisitNext(ps: seq<Param>, denylist: set<string>, keys: seq<string>, i: nat)
    requires i < |keys|
    ensures Survivors(ps, denylist, keys[..i + 1])
         == if Denied(keys[i], denylist) then DeleteKey(Survivors(ps, denylist, keys[..i]), keys[i])
            else Survivors(ps, denylist, keys[..i])
  {
    assert keys[..i + 1] == keys[..i] + [keys[i]];
    SurvivorsStep(ps, denylist, keys[..i], keys[i]);
  }

  /** Once every key of the snapshot has been visited, exactly the allowed pairs remain. */
  lemma SurvivorsOfOwnKeys(ps: seq<Param>, denylist: set<string>)
    ensures Survivors(ps, denylist, KeysOf(ps)) == Strip(ps, denylist)
  {
    var keys := KeysOf(ps);
    forall p | p in ps ensures p.key in keys {
      var j :| 0 <= j < |ps| && ps[j] == p;
      assert keys[j] == p.key;
    }
    SurvivorsOfAllKeys(ps, denylist, keys);
  }

  /**
   * The deletion loop of `cleanUrl`: walk a snapshot of all keys and delete every
   * key whose lower-case form is denied.  The result is exactly the pairs with
   * an allowed key, in order, repeated keys included.
   */
  method DeleteDeniedParams(query: seq<Param>, denylist: set<string>) returns (kept: seq<Param>)
    ensures kept == Strip(query, denylist)
  {
    var keys := KeysOf(query);
    kept := query;
    SurvivorsOfNothing(query, denylist);
    for i := 0 to |keys|
      invariant kept == Survivors(query, denylist, keys[..i])
    {
      if Denied(keys[i], denylist) {
        kept := DeleteKey(kept, keys[i]);
      }
      VisitNext(query, denylist, keys, i);
    }
    assert keys[..|keys|] == keys;
    SurvivorsOfOwnKeys(query, denylist);
  }

  // ---------------------------------------------------------------------------
  // cleanUrl as written

  /** The URL after the deletion loop: the query keeps its `?` even when no pair is left. */
  function Filtered(u: Url): Url {
    if u.query.None? then u else u.(query := Some(Strip(u.query.value, TrackingParams)))
  }

  /**
   * `cleanUrl` exactly as written: when no pair is left, any trailing `?` of the
   * serialised string is dropped, even one that ends the fragment.
   */
  function CleanAsWritten(raw: string, parsed: Option<Url>): string {
    match parsed
    case None => raw
    case Some(u) =>
      var s := Serialize(Filtered(u));
      if Strip(Pairs(u), TrackingParams) == [] && EndsWith(s, "?") then s[..|s| - 1] else s
  }

  /** `https://example.com/page#section?` has no query at all, yet loses the `?` of its fragment. */
  lemma CleanAsWrittenAltersFragment()
    ensures var u := Url("https://example.com/page", None, Some("section?"));
            && Serialize(u) == "https://example.com/page#section?"
            && CleanAsWritten(Serialize(u), Some(u)) == "https://example.com/page#section"
            && Clean(Serialize(u), Some(u)) == Serialize(u)
  {
  }

  /** Cleaning as written is not idempotent: a second pass eats one more `?`. */
  lemma CleanAsWrittenNotIdempotent()
    ensures var u := Url("https://example.com/", None, Some("a??"));
            var once := CleanAsWritten(Serialize(u), Some(u));
            var v := Url("https://example.com/", None, Some("a?"));
            && once == Serialize(v)
            && CleanAsWritten(once, Some(v)) == "https://example.com/#a"
            && CleanAsWritten(once, Some(v)) != once
  {
  }

  // ---------------------------------------------------------------------------
  // cleanUrl as intended: only the `?` of an emptied query is dropped

  /**
   * The cleaned URL: tracking pairs deleted, base and fragment untouched; the
   * query marker disappears only when no pair is left and nothing follows it.
   */
  function Cleaned(u: Url): (r: Url)
    ensures r.base == u.base && r.fragment == u.fragment
    ensures Pairs(r) == Strip(Pairs(u), TrackingParams)
    ensures r.query.None? <==> u.query.None? || (Pairs(r) == [] && u.fragment.None?)
  {
    if u.query.None? then u
    else
      var kept := Strip(u.query.value, TrackingParams);
      if kept == [] && u.fragment.None? then u.(query := None) else u.(query := Some(kept))
  }

  /** After cleaning no pair has a tracking key, and every other pair is still there. */
  lemma CleanedPairs(u: Url)
    ensures forall p :: p in Pairs(Cleaned(u)) <==> p in Pairs(u) && !IsTrackingKey(p.key)
  {
    forall p {
      StripMembers(Pairs(u), TrackingParams, p);
    }
  }

  /** `cleanUrl(raw)`, given the outcome of parsing `raw`; an unparsable input comes back unchanged. */
  function Clean(raw: string, parsed: Option<Url>): (r: string)
    ensures parsed.None? ==> r == raw
  {
    match parsed
    case None => raw
    case Some(u) => Serialize(Cleaned(u))
  }

  /**
   * Wherever the base holds no `?` (as the parser guarantees) and the fragment
   * does not end in `?`, the corrected cleaner agrees with the code as written.
   */
  lemma CleanAgreesWithAsWritten(raw: string, u: Url)
    requires '?' !in u.base
    requires u.fragment.Some? ==> !EndsWith(u.fragment.value, "?")
    ensures Clean(raw, Some(u)) == CleanAsWritten(raw, Some(u))
  {
    if u.fragment.Some? {
      AgreeWithFragment(u);
    } else {
      AgreeWithoutFragment(u);
    }
  }

  lemma AgreeWithFragment(u: Url)
    requires u.fragment.Some? && !EndsWith(u.fragment.value, "?")
    ensures !EndsWith(Serialize(Filtered(u)), "?") && Cleaned(u) == Filtered(u)
  {
    var f := u.fragment.value;
    var q := match Filtered(u).query case None => "" case Some(ps) => "?" + Encode(ps);
    assert Serialize(Filtered(u)) == (u.base + q) + ("#" + f);
    EndsWithChar(u.base + q, "#" + f, '?');
    EndsWithChar(f, [], '?');
  }

  lemma AgreeWithoutFragment(u: Url)
    requires '?' !in u.base && u.fragment.None?
    ensures Serialize(Cleaned(u)) == CleanAsWritten(Serialize(u), Some(u))
  {
    var s := Serialize(Filtered(u));
    var kept := Strip(Pairs(u), TrackingParams);
    if u.query.None? {
      assert s == u.base;
      EndsWithChar(u.base, [], '?');
      assert |u.base| > 0 ==> u.base[|u.base| - 1] in u.base;
    } else if kept == [] {
      assert s == u.base + "?";
      assert s[..|s| - 1] == u.base;
    } else {
      assert Cleaned(u) == Filtered(u);
    }
  }

  /** The cleaned URL cleans to itself. */
  lemma CleanedIdempotent(u: Url)
    ensures Cleaned(Cleaned(u)) == Cleaned(u)
  {
    StripIdempotent(Pairs(u), TrackingParams);
  }

  /**
   * Idempotence of `cleanUrl`: when the parser reads the cleaned string back as
   * the cleaned URL, a second cleaning returns the same string.
   */
  lemma CleanIdempotent(raw: string, u: Url)
    ensures Clean(Clean(raw, Some(u)), Some(Cleaned(u))) == Clean(raw, Some(u))
  {
    CleanedIdempotent(u);
  }

  // ---------------------------------------------------------------------------
  // When cleaning changes nothing

  /** Total length of the pairs' texts, one separator each. */
  function Weight(ps: seq<Param>): nat {
    if ps == [] then 0 else |PairText(ps[0])| + 1 + Weight(ps[1..])
  }

  lemma {:induction false} EncodeLength(ps: seq<Param>)
    ensures |Encode(ps)| == if ps == [] then 0 else Weight(ps) - 1
  {
    if |ps| > 1 {
      EncodeLength(ps[1..]);
    }
  }

  lemma {:induction false} StripWeight(ps: seq<Param>, denylist: set<string>)
    ensures Weight(Strip(ps, denylist)) <= Weight(ps)
    ensures (exists p :: p in ps && Denied(p.key, denylist)) ==> Weight(Strip(ps, denylist)) < Weight(ps)
  {
    if ps != [] {
      StripWeight(ps[1..], denylist);
      var rest := Strip(ps[1..], denylist);
      if Denied(ps[0].key, denylist) {
        assert Strip(ps, denylist) == rest;
      } else {
        assert Strip(ps, denylist) == [ps[0]] + rest;
        assert ([ps[0]] + rest)[1..] == rest;
        assert forall p :: p in ps && p != ps[0] ==> p in ps[1..];
      }
    }
  }

  /**
   * Cleaning leaves a parsed URL's text unchanged exactly when no pair has a
   * tracking key and the URL does not end in an empty query marker.
   */
  lemma CleanUnchangedIff(u: Url)
    ensures Clean(Serialize(u), Some(u)) == Serialize(u)
        <==> (forall p :: p in Pairs(u) ==> !IsTrackingKey(p.key)) && !(u.query == Some([]) && u.fragment.None?)
  {
    StripUnchangedIff(Pairs(u), TrackingParams);
    if u.query.Some? {
      var ps := u.query.value;
      var kept := Strip(ps, TrackingParams);
      var tail := match u.fragment case None => "" case Some(f) => "#" + f;
      if kept != ps {
        StripWeight(ps, TrackingParams);
        EncodeLength(ps);
        EncodeLength(kept);
        assert |Encode(kept)| < |Encode(ps)|;
        assert |Serialize(Cleaned(u))| <= |u.base| + 1 + |Encode(kept)| + |tail|;
        assert |Serialize(u)| == |u.base| + 1 + |Encode(ps)| + |tail|;
      } else if ps == [] && u.fragment.None? {
        assert |Serialize(Cleaned(u))| < |Serialize(u)|;
      } else {
        assert Cleaned(u) == u;
      }
    }
  }

  // ---------------------------------------------------------------------------
  // The imperative cleaner

  /**
   * `cleanUrl`: on a parse failure the raw string; otherwise delete the tracking
   * pairs in place, re-serialise, and drop the marker of an emptied query.
   */
  method CleanUrl(raw: string, parsed: Option<Url>) returns (result: string)
    ensures result == Clean(raw, parsed)
  {
    match parsed
    case None =>
      result := raw;
    case Some(u) =>
      var url := u;
      if url.query.Some? {
        var kept := DeleteDeniedParams(url.query.value, TrackingParams);
        url := url.(query := Some(kept));
        if kept == [] && url.fragment.None? {
          url := url.(query := None);
        }
      }
      result := Serialize(url);
  }
}
