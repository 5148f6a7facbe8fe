/** Worked examples of cleaning, on concrete URLs. */
module CleanerExamples {
  import opened Text
  import opened UrlCleaner

  lemma UtmSourceIsListed()
    ensures IsTrackingKey("utm_source")
  {
    UtmSourceIsLowerCase();
    assert "utm_source" in TrackingParams;
  }

  lemma UtmSourceIsLowerCase()
    ensures Lower("utm_source") == "utm_source"
  {
    LowerOfLowerCase("utm_source");
  }

  lemma RefIsListed()
    ensures IsTrackingKey("ref")
  {
    LowerOfLowerCase("ref");
  }

  /**
   * `toLowerCase` turns the Kelvin sign into `k`, so `s_\U{212A}wcid` is the
   * listed `s_kwcid` and is deleted.
   */
  lemma KelvinSignKeyIsListed()
    ensures IsTrackingKey("s_\U{212A}wcid")
  {
    assert Lower("s_\U{212A}wcid") == "s_kwcid";
    assert "s_kwcid" in TrackingParams;
  }

  lemma IdNotInDenylist()
    ensures "id" !in TrackingParams
  {
  }

  lemma IdIsNotListed()
    ensures !IsTrackingKey("id")
  {
    IdNotInDenylist();
    assert Lower("id") == "id" by {
      LowerOfLowerCase("id");
    }
  }

  /**
   * `https://shop.example.com/item?id=5&utm_source=fb&ref=abc`, parsed as `u`
   * (whose text it is), is stored as `https://shop.example.com/item?id=5`.
   */
  lemma ShopExample(raw: string, u: Url)
    requires raw == "https://shop.example.com/item?id=5&utm_source=fb&ref=abc"
    requires u == Url("https://shop.example.com/item",
                      Some([Param("id", "5"), Param("utm_source", "fb"), Param("ref", "abc")]), None)
    ensures Serialize(u) == raw
    ensures Clean(raw, Some(u)) == "https://shop.example.com/item?id=5"
  {
    ShopParsed(u);
    ShopCleaned(u);
    ShopSerialized();
  }

  /** The parsed form used above is the one that serialises back to the raw string. */
  lemma ShopParsed(u: Url)
    requires u == Url("https://shop.example.com/item",
                      Some([Param("id", "5"), Param("utm_source", "fb"), Param("ref", "abc")]), None)
    ensures Serialize(u) == "https://shop.example.com/item?id=5&utm_source=fb&ref=abc"
  {
  }

  lemma ShopCleaned(u: Url)
    requires u == Url("https://shop.example.com/item",
                      Some([Param("id", "5"), Param("utm_source", "fb"), Param("ref", "abc")]), None)
    ensures Cleaned(u) == Url("https://shop.example.com/item", Some([Param("id", "5")]), None)
  {
    ShopPairs();
  }

  lemma ShopSerialized()
    ensures Serialize(Url("https://shop.example.com/item", Some([Param("id", "5")]), None))
         == "https://shop.example.com/item?id=5"
  {
  }

  lemma ShopPairs()
    ensures Strip([Param("id", "5"), Param("utm_source", "fb"), Param("ref", "abc")], TrackingParams) == [Param("id", "5")]
  {
    UtmSourceIsListed();
    RefIsListed();
    IdIsNotListed();
    KeepsOnlyFirst(Param("id", "5"), Param("utm_source", "fb"), Param("ref", "abc"));
  }

  lemma KeepsOnlyFirst(a: Param, b: Param, c: Param)
    requires !IsTrackingKey(a.key) && IsTrackingKey(b.key) && IsTrackingKey(c.key)
    ensures Strip([a, b, c], TrackingParams) == [a]
  {
    assert [a, b, c][1..] == [b, c];
    assert [b, c][1..] == [c];
    assert Strip([c], TrackingParams) == [];
  }

  /** `https://a.example.com/?utm_source=x` is stored as `https://a.example.com/`: no pair is left, so no `?`. */
  lemma EmptiedQueryExample(raw: string, u: Url)
    requires raw == "https://a.example.com/?utm_source=x"
    requires u == Url("https://a.example.com/", Some([Param("utm_source", "x")]), None)
    ensures Serialize(u) == raw
    ensures Clean(raw, Some(u)) == "https://a.example.com/"
  {
    EmptiedQueryParsed(u);
    UtmSourceIsListed();
    OnlyTrackingPair(raw, u.base, u.query.value[0]);
  }

  lemma OnlyTrackingPair(raw: string, base: string, p: Param)
    requires IsTrackingKey(p.key)
    ensures Clean(raw, Some(Url(base, Some([p]), None))) == base
  {
    assert Strip([p], TrackingParams) == [];
  }

  lemma EmptiedQueryParsed(u: Url)
    requires u == Url("https://a.example.com/", Some([Param("utm_source", "x")]), None)
    ensures Serialize(u) == "https://a.example.com/?utm_source=x"
  {
  }
}
