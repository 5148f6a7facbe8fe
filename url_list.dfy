/**
 * The stored list of collected URLs and what the Add and Remove buttons do
 * to it, as functions from the old list to the new one.
 */
module UrlList {
  import opened Text
  import opened UrlCleaner

  /** No URL occurs twice in the list. */
  predicate NoDuplicates(urls: seq<string>) {
    forall i, j :: 0 <= i < j < |urls| ==> urls[i] != urls[j]
  }

  /** Pages the Add button refuses: no URL at all, browser pages, extension pages and `about:` pages. */
  predicate IsUncollectable(raw: string) {
    raw == [] || "chrome://" <= raw || "chrome-extension://" <= raw || "about:" <= raw
  }

  /** The three ways an Add click ends, each with its own toast. */
  datatype AddOutcome = Rejected | AlreadyPresent | Added(url: string)

  function AddOutcomeOf(urls: seq<string>, raw: string, parsed: Option<Url>): AddOutcome {
    if IsUncollectable(raw) then Rejected
    else
      var clean := Clean(raw, parsed);
      if clean in urls then AlreadyPresent else Added(clean)
  }

  /** The toast text for each outcome. */
  function AddToast(outcome: AddOutcome): (msg: string)
    ensures outcome.Rejected? <==> msg == "Cannot collect this page"
    ensures outcome.AlreadyPresent? <==> msg == "Already in list"
    ensures outcome.Added? <==> msg == "URL added"
  {
    match outcome
    case Rejected => "Cannot collect this page"
    case AlreadyPresent =>
      assert "Already in list"[0] == 'A';
      "Already in list"
    case Added(_) =>
      assert "URL added"[0] == 'U';
      "URL added"
  }

  /** The list after an Add click. */
  function AfterAdd(urls: seq<string>, raw: string, parsed: Option<Url>): seq<string> {
    match AddOutcomeOf(urls, raw, parsed)
    case Added(clean) => urls + [clean]
    case _ => urls
  }

  /**
   * Add appends the cleaned URL when the page may be collected and the
   * cleaned URL is new, and otherwise leaves the list as it was.
   */
  lemma AddMeaning(urls: seq<string>, raw: string, parsed: Option<Url>)
    ensures IsUncollectable(raw) ==> AfterAdd(urls, raw, parsed) == urls
    ensures !IsUncollectable(raw) ==> Clean(raw, parsed) in AfterAdd(urls, raw, parsed)
    ensures AfterAdd(urls, raw, parsed) == urls || AfterAdd(urls, raw, parsed) == urls + [Clean(raw, parsed)]
    ensures AfterAdd(urls, raw, parsed) != urls <==> !IsUncollectable(raw) && Clean(raw, parsed) !in urls
  {
  }

  /** Adding never introduces a duplicate. */
  lemma AddKeepsNoDuplicates(urls: seq<string>, raw: string, parsed: Option<Url>)
    requires NoDuplicates(urls)
    ensures NoDuplicates(AfterAdd(urls, raw, parsed))
  {
  }

  /** After an Add of a collectable page its cleaned URL is stored exactly once, whatever the list held. */
  lemma AddStoresOnce(urls: seq<string>, raw: string, parsed: Option<Url>)
    requires NoDuplicates(urls)
    requires !IsUncollectable(raw)
    ensures multiset(AfterAdd(urls, raw, parsed))[Clean(raw, parsed)] == 1
  {
    var c := Clean(raw, parsed);
    var r := AfterAdd(urls, raw, parsed);
    AddKeepsNoDuplicates(urls, raw, parsed);
    AddMeaning(urls, raw, parsed);
    OnceInDistinct(r, c);
  }

  lemma OnceInDistinct(s: seq<string>, x: string)
    requires NoDuplicates(s) && x in s
    ensures multiset(s)[x] == 1
  {
    var k :| 0 <= k < |s| && s[k] == x;
    assert s == s[..k] + [x] + s[k + 1..];
    assert x !in s[..k] && x !in s[k + 1..] by {
      forall i | 0 <= i < |s| && i != k ensures s[i] != x {
        if i < k {
          assert s[i] != s[k];
        } else {
          assert s[k] != s[i];
        }
      }
    }
    assert multiset(s) == multiset(s[..k]) + multiset{x} + multiset(s[k + 1..]);
  }

  /** Clicking Add twice on the same page stores it once. */
  lemma AddIdempotent(urls: seq<string>, raw: string, parsed: Option<Url>)
    ensures AfterAdd(AfterAdd(urls, raw, parsed), raw, parsed) == AfterAdd(urls, raw, parsed)
  {
  }

  /**
   * The list after the remove button of row `i` is clicked: `urls.splice(i, 1)`,
   * which removes nothing when `i` is past the end.
   */
  function RemovedAt(urls: seq<string>, i: nat): (r: seq<string>)
    ensures i >= |urls| ==> r == urls
    ensures i < |urls| ==> |r| == |urls| - 1 && multiset(r) == multiset(urls) - multiset{urls[i]}
    ensures forall k :: 0 <= k < i && k < |r| ==> r[k] == urls[k]
    ensures forall k :: i <= k < |r| ==> r[k] == urls[k + 1]
  {
    if i < |urls| then
      assert urls == urls[..i] + [urls[i]] + urls[i + 1..];
      urls[..i] + urls[i + 1..]
    else urls
  }

  /** Removing keeps the list free of duplicates, and the removed URL is then gone. */
  lemma RemoveKeepsNoDuplicates(urls: seq<string>, i: nat)
    requires NoDuplicates(urls)
    ensures NoDuplicates(RemovedAt(urls, i))
    ensures i < |urls| ==> urls[i] !in RemovedAt(urls, i)
  {
  }

  /** Removing the row an Add just appended restores the list. */
  lemma RemoveUndoesAdd(urls: seq<string>, raw: string, parsed: Option<Url>)
    requires AfterAdd(urls, raw, parsed) != urls
    ensures RemovedAt(AfterAdd(urls, raw, parsed), |urls|) == urls
  {
  }
}
