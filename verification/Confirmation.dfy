/**
 * The confirmation page (src/pages/Confirmation.tsx) as a view model: from
 * the navigation state it receives, either a redirect back to the form or
 * the details it shows (guest name, the party-size line, and the food
 * selections in guest order).
 */
module Confirmation {
  import opened Wrappers
  import opened JsArrays
  import opened JsNumbers

  /** The navigation state the form hands to this page after a successful send. */
  datatype ConfirmationData = ConfirmationData(
    guestName: string,
    guestCount: string,
    foodChoices: seq<Slot<string>>)

  /** One entry under "Food Selections": the slot index it comes from, its title and the choice. */
  datatype Selection = Selection(index: nat, title: string, choice: string)

  /** What the page produces. */
  datatype Page =
    | Redirect(target: string, replace: bool)
    | Details(
        guestName: string,
        partySize: string,
        foodSelections: Option<seq<Selection>>)

  /** The label of the guest at slot `k`, counted from 1. */
  function GuestLabel(k: nat): (title: string)
    ensures |title| > 6 && title[..6] == "Guest "
    ensures title[6..] == NatToDecimal(k + 1)
  {
    "Guest " + NatToDecimal(k + 1)
  }

  /** "Guest" when the count text parses to exactly 1, "Guests" otherwise (NaN included). */
  function Noun(guestCount: string): (noun: string)
    ensures noun == "Guest" <==> ParseInt(guestCount) == Num(1)
    ensures noun == "Guest" || noun == "Guests"
  {
    if ParseInt(guestCount) == Num(1) then "Guest" else "Guests"
  }

  /**
   * `r` lists the slots of `choices` as the page renders them: every entry
   * comes from a slot that is not a hole, shows that slot's text and is
   * titled by it; entries are in strictly increasing slot order; every slot
   * that is not a hole has an entry.
   */
  predicate ListsSlots(choices: seq<Slot<string>>, r: seq<Selection>) {
    |r| <= |choices| &&
    (forall j :: 0 <= j < |r| ==>
      r[j].index < |choices| && !choices[r[j].index].Hole? &&
      r[j].choice == SlotText(choices[r[j].index]) &&
      r[j].title == GuestLabel(r[j].index)) &&
    (forall j1, j2 :: 0 <= j1 < j2 < |r| ==> r[j1].index < r[j2].index) &&
    (forall k :: 0 <= k < |choices| && !choices[k].Hole? ==>
      exists j :: 0 <= j < |r| && r[j].index == k)
  }

  /**
   * The entries `foodChoices.map(...)` renders: one per slot that is not a
   * hole, in index order, labelled by that slot; `map` skips holes but not
   * `undefined`, which React renders as nothing, so such a slot gives an
   * entry with an empty choice.
   */
  function Selections(choices: seq<Slot<string>>): (r: seq<Selection>)
    ensures ListsSlots(choices, r)
  {
    if |choices| == 0 then []
    else
      var last := |choices| - 1;
      var earlier := Selections(choices[..last]);
      var r := if choices[last].Hole? then earlier
        else earlier + [Selection(last, GuestLabel(last), SlotText(choices[last]))];
      ListsSlotsExtends(choices, choices[..last], earlier, r);
      r
  }

  /**
   * The step of `Selections`: entries that list all slots but the last,
   * followed by an entry for the last slot when it is not a hole, list all
   * slots.
   */
  lemma ListsSlotsExtends(choices: seq<Slot<string>>, prefix: seq<Slot<string>>, earlier: seq<Selection>, r: seq<Selection>)
    requires |choices| > 0 && prefix == choices[..|choices| - 1]
    requires ListsSlots(prefix, earlier)
    requires var last := |choices| - 1;
      r == if choices[last].Hole? then earlier
        else earlier + [Selection(last, GuestLabel(last), SlotText(choices[last]))]
    ensures ListsSlots(choices, r)
  {
    EntriesExtend(choices, prefix, earlier, r);
    OrderExtends(choices, prefix, earlier, r);
    CoverageExtends(choices, prefix, earlier, r);
  }

  lemma EntriesExtend(choices: seq<Slot<string>>, prefix: seq<Slot<string>>, earlier: seq<Selection>, r: seq<Selection>)
    requires |choices| > 0 && prefix == choices[..|choices| - 1]
    requires ListsSlots(prefix, earlier)
    requires var last := |choices| - 1;
      r == if choices[last].Hole? then earlier
        else earlier + [Selection(last, GuestLabel(last), SlotText(choices[last]))]
    ensures |r| <= |choices|
    ensures forall j :: 0 <= j < |r| ==>
      r[j].index < |choices| && !choices[r[j].index].Hole? &&
      r[j].choice == SlotText(choices[r[j].index]) &&
      r[j].title == GuestLabel(r[j].index)
  {
    forall j | 0 <= j < |r|
      ensures r[j].index < |choices| && !choices[r[j].index].Hole?
      ensures r[j].choice == SlotText(choices[r[j].index]) && r[j].title == GuestLabel(r[j].index)
    {
      if j < |earlier| {
        EarlierEntryStays(choices, prefix, earlier[j]);
        assert r[j] == earlier[j];
      }
    }
  }

  /** An entry about a slot of the prefix describes the same slot of the whole list. */
  lemma EarlierEntryStays(choices: seq<Slot<string>>, prefix: seq<Slot<string>>, e: Selection)
    requires |choices| > 0 && prefix == choices[..|choices| - 1]
    requires e.index < |prefix| && !prefix[e.index].Hole?
    requires e.choice == SlotText(prefix[e.index]) && e.title == GuestLabel(e.index)
    ensures e.index < |choices| && !choices[e.index].Hole?
    ensures e.choice == SlotText(choices[e.index]) && e.title == GuestLabel(e.index)
  {
    assert prefix[e.index] == choices[e.index];
  }

  lemma OrderExtends(choices: seq<Slot<string>>, prefix: seq<Slot<string>>, earlier: seq<Selection>, r: seq<Selection>)
    requires |choices| > 0 && prefix == choices[..|choices| - 1]
    requires ListsSlots(prefix, earlier)
    requires var last := |choices| - 1;
      r == if choices[last].Hole? then earlier
        else earlier + [Selection(last, GuestLabel(last), SlotText(choices[last]))]
    ensures forall j1, j2 :: 0 <= j1 < j2 < |r| ==> r[j1].index < r[j2].index
  {
    forall j1, j2 | 0 <= j1 < j2 < |r|
      ensures r[j1].index < r[j2].index
    {
      assert r[j1] == earlier[j1];
      if j2 < |earlier| {
        assert r[j2] == earlier[j2];
      }
    }
  }

  lemma CoverageExtends(choices: seq<Slot<string>>, prefix: seq<Slot<string>>, earlier: seq<Selection>, r: seq<Selection>)
    requires |choices| > 0 && prefix == choices[..|choices| - 1]
    requires ListsSlots(prefix, earlier)
    requires var last := |choices| - 1;
      r == if choices[last].Hole? then earlier
        else earlier + [Selection(last, GuestLabel(last), SlotText(choices[last]))]
    ensures forall k :: 0 <= k < |choices| && !choices[k].Hole? ==>
      exists j :: 0 <= j < |r| && r[j].index == k
  {
    var last := |choices| - 1;
    assert r[..|earlier|] == earlier;
    forall k | 0 <= k < |choices| && !choices[k].Hole?
      ensures exists j :: 0 <= j < |r| && r[j].index == k
    {
      if k < last {
        assert prefix[k] == choices[k];
        PrefixSlotCovered(prefix, earlier, r, k);
      } else {
        assert r[|earlier|].index == k;
      }
    }
  }

  /** A slot of the prefix that the earlier entries cover stays covered when entries are appended. */
  lemma PrefixSlotCovered(prefix: seq<Slot<string>>, earlier: seq<Selection>, r: seq<Selection>, k: nat)
    requires ListsSlots(prefix, earlier)
    requires k < |prefix| && !prefix[k].Hole?
    requires |earlier| <= |r| && r[..|earlier|] == earlier
    ensures exists j :: 0 <= j < |r| && r[j].index == k
  {
    var j :| 0 <= j < |earlier| && earlier[j].index == k;
    assert r[..|earlier|][j] == r[j];
  }

  /** A one-slot list that is not a hole renders a single entry titled "Guest 1". */
  lemma SelectionsOfOne(x: Slot<string>)
    requires !x.Hole?
    ensures Selections([x]) == [Selection(0, GuestLabel(0), SlotText(x))]
  {
    assert [x][..0] == [];
  }

  /**
   * The party-size line: the raw count text, a space, then "Guest" when the
   * text parses to exactly 1 and "Guests" otherwise.
   */
  function PartySizeText(guestCount: string): (text: string)
    ensures |text| > |guestCount| && text[..|guestCount|] == guestCount
    ensures text[|guestCount|..] == " Guest" <==> ParseInt(guestCount) == Num(1)
    ensures text[|guestCount|..] == " Guests" <==> ParseInt(guestCount) != Num(1)
  {
    var noun := Noun(guestCount);
    var tail := " " + noun;
    assert tail == " Guest" <==> |tail| == 6;
    assert (guestCount + tail)[..|guestCount|] == guestCount;
    assert (guestCount + tail)[|guestCount|..] == tail;
    guestCount + tail
  }

  /**
   * The page for the navigation state it was reached with: none means a
   * redirect to "/" replacing the history entry; otherwise the details, with
   * the food section present only for a non-empty list.
   */
  function Render(state: Option<ConfirmationData>): (page: Page)
    ensures state == None <==> page == Redirect("/", true)
    ensures state == None <==> page.Redirect?
    ensures state.Some? ==>
      var count := state.value.guestCount;
      page.guestName == state.value.guestName &&
      |page.partySize| > |count| && page.partySize[..|count|] == count &&
      page.partySize == PartySizeText(count) &&
      (page.partySize[|count|..] == " Guest" <==> ParseInt(count) == Num(1)) &&
      (page.partySize[|count|..] == " Guests" <==> ParseInt(count) != Num(1)) &&
      (page.foodSelections.Some? <==> |state.value.foodChoices| > 0)
    ensures state.Some? && page.foodSelections.Some? ==>
      page.foodSelections.value == Selections(state.value.foodChoices)
  {
    match state
    case None => Redirect("/", true)
    case Some(data) =>
      Details(
        data.guestName,
        PartySizeText(data.guestCount),
        if |data.foodChoices| > 0 then Some(Selections(data.foodChoices)) else None)
  }

  /** A count written as a decimal number, possibly followed by a non-digit, picks the noun by its value. */
  lemma NounOfDecimal(n: nat, rest: string)
    requires |rest| == 0 || !IsDigit(rest[0])
    requires n == 0 && |rest| > 0 ==> rest[0] != 'x' && rest[0] != 'X'
    ensures Noun(NatToDecimal(n) + rest) == if n == 1 then "Guest" else "Guests"
  {
    ParseIntOfDecimal(n, rest);
  }

  /**
   * A count with no digit where `parseInt` looks for one is "Guests": "",
   * a word, or "0x" with no hex digit after it.
   */
  lemma NounOfNonNumeric(guestCount: string)
    requires Magnitude(Unsigned(guestCount)).NaN?
    ensures Noun(guestCount) == "Guests"
  {
  }

  /** Sample: "0x" is NaN for `parseInt`, so the page says "Guests". */
  lemma NounOfBareHexPrefix()
    ensures Noun("0x") == "Guests"
  {
    ParseIntBareHexPrefixIsNaN();
  }

  /** Sample: "1.5" reads as one guest, since `parseInt` stops at the point. */
  lemma NounOfFractionalOne()
    ensures Noun("1.5") == "Guest"
  {
    assert "1.5" == NatToDecimal(1) + ".5";
    NounOfDecimal(1, ".5");
  }

  /** Sample: "2" reads as several guests. */
  lemma NounOfTwo()
    ensures Noun("2") == "Guests"
  {
    assert "2" == NatToDecimal(2) + "";
    NounOfDecimal(2, "");
  }

  /** Sample: an empty or wordy count reads as NaN, hence "Guests". */
  lemma NounOfEmptyAndWord()
    ensures Noun("") == "Guests" && Noun("one") == "Guests"
  {
    ParseIntOfPlainText("one");
    NounOfNonNumeric("");
  }
}
