/**
 * The popup's state and its button handlers. The stored list lives in the
 * browser's local storage and the Clear All button keeps its own phase; an
 * object of this class holds both, and each handler is a method that updates
 * them as the corresponding click, or the confirmation timer, does.
 */
module Popup {
  import opened Text
  import opened UrlCleaner
  import opened UrlList
  import opened ClearConfirm
  import opened Display

  class UrlCollector {
    /** The list in storage under the key `urls`. */
    var urls: seq<string>
    /** Whether the Clear All button asks for confirmation. */
    var phase: Phase
    /** Whether the three-second reset timer is pending. */
    var armed: bool

    /** The machine the Clear All button runs, read off this object. */
    function State(): Machine
      reads this
    {
      Machine(urls, phase, armed)
    }

    predicate Valid()
      reads this
    {
      Consistent(State())
    }

    /** The popup opens on the stored list with the Clear All button at rest. */
    constructor(stored: seq<string>)
      ensures Valid()
      ensures urls == stored && phase == Idle
    {
      urls := stored;
      phase := Idle;
      armed := false;
    }

    /** The Add button: collect the active tab's URL, cleaned, unless it is refused or already stored. */
    method Add(raw: string, parsed: Option<Url>) returns (outcome: AddOutcome, toast: string)
      modifies this`urls
      ensures outcome == AddOutcomeOf(old(urls), raw, parsed)
      ensures toast == AddToast(outcome)
      ensures urls == AfterAdd(old(urls), raw, parsed)
      ensures NoDuplicates(old(urls)) ==> NoDuplicates(urls)
    {
      if IsUncollectable(raw) {
        outcome := Rejected;
      } else {
        var clean := CleanUrl(raw, parsed);
        if clean in urls {
          outcome := AlreadyPresent;
        } else {
          urls := urls + [clean];
          outcome := Added(clean);
        }
      }
      toast := AddToast(outcome);
      if NoDuplicates(old(urls)) {
        AddKeepsNoDuplicates(old(urls), raw, parsed);
      }
    }

    /** The remove button of a row, whose `data-index` attribute is read back with `parseInt`. */
    method Remove(dataIndex: string) returns (toast: string)
      requires ParseInt(dataIndex).Some?
      modifies this`urls
      ensures urls == RemovedAt(old(urls), ParseInt(dataIndex).value)
      ensures NoDuplicates(old(urls)) ==> NoDuplicates(urls)
      ensures ParseInt(dataIndex).value < |old(urls)| ==> |urls| == |old(urls)| - 1
      ensures toast == "URL removed"
    {
      var i := ParseInt(dataIndex).value;
      if i < |urls| {
        urls := urls[..i] + urls[i + 1..];
      }
      toast := "URL removed";
      if NoDuplicates(old(urls)) {
        RemoveKeepsNoDuplicates(old(urls), i);
      }
    }

    /** The Clear All button: arm on a first click, empty the list on the second. */
    method ClearClick() returns (toast: Option<string>)
      requires Valid()
      modifies this
      ensures Valid()
      ensures State() == Next(old(State()), Click)
      ensures toast == ClickToast(old(State()))
      ensures NoDuplicates(old(urls)) ==> NoDuplicates(urls)
    {
      toast := ClickToast(State());
      if phase.Idle? {
        if urls != [] {
          phase := Confirming;
          armed := true;
        }
      } else {
        armed := false;
        phase := Idle;
        urls := [];
      }
    }

    /** The reset timer running out before a second click puts the button back at rest. */
    method ResetClearButton()
      requires Valid()
      modifies this
      ensures Valid()
      ensures State() == Next(old(State()), Event.TimerFires)
      ensures phase == Idle && urls == old(urls)
    {
      if armed {
        phase := Idle;
        armed := false;
      }
    }

    /** The Copy All button: the clipboard text and the toast; the list is not changed. */
    method CopyAll() returns (payload: Option<string>, toast: string)
      ensures payload == CopyPayload(urls)
      ensures toast == CopyToast(urls)
      ensures payload.None? <==> urls == []
      ensures (forall k :: 0 <= k < |urls| ==> OneLine(urls[k])) && payload.Some? ==> Split(payload.value) == urls
    {
      if urls == [] {
        payload := None;
      } else {
        payload := Some(Join(urls));
      }
      toast := CopyToast(urls);
      if forall k :: 0 <= k < |urls| ==> OneLine(urls[k]) {
        CopyPayloadLines(urls);
      }
    }

    /** The counter above the list. */
    function Counter(): (shown: string)
      reads this
      ensures ParseInt(shown) == Some(|urls|)
      ensures EndsWith(shown, "s") <==> |urls| != 1
    {
      CountLabelMeaning(|urls|);
      CountLabel(|urls|)
    }
  }
}
