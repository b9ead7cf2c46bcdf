/**
 * The RSVP form component (src/components/WeddingRSVP.tsx): the form record
 * and its submitting flag, the three handlers that change them, and the
 * pure construction of the outbound e-mail parameters and the hand-off to
 * the confirmation page.
 */
module WeddingRsvp {
  import opened Wrappers
  import opened JsStrings
  import opened JsArrays
  import opened JsNumbers
  import Confirmation

  /** The form record; every field holds the raw text the inputs produced. */
  datatype FormData = FormData(
    guestName: string,
    email: string,
    attendance: string,
    guestCount: string,
    foodChoices: seq<Slot<string>>)

  /** The form on page load, and again after a successful send. */
  const EmptyForm := FormData("", "", "", "", [])

  /** The fields the inputs pass to `updateField` by name. */
  datatype Field = GuestName | Email | Attendance | GuestCount

  /** `parseInt(s) || 0`: NaN (and -0) become 0. */
  function CountValue(s: string): (n: int)
    ensures ParseInt(s).NaN? ==> n == 0
    ensures ParseInt(s).Num? ==> n == ParseInt(s).value
  {
    match ParseInt(s)
    case NaN => 0
    case Num(v) => v
  }

  /**
   * The food choices after the party size is set to `n`: a spread copy of
   * the list, in which every hole has become `undefined`, shortened with
   * `slice(0, n)` when `n` is below its length and kept whole otherwise.
   * The list is only ever cut from the tail, never grown.
   */
  function ResizedChoices(choices: seq<Slot<string>>, n: int): (r: seq<Slot<string>>)
    ensures |r| <= |choices| && r == Spread(choices)[..|r|]
    ensures 0 <= n ==> |r| == Min(n, |choices|)
    ensures n < 0 ==> |r| == Max(0, |choices| + n)
    ensures forall k :: 0 <= k < |r| ==> !r[k].Hole?
  {
    var current := Spread(choices);
    if n < |current| then Slice(current, 0, n) else current
  }

  /**
   * The food choices after guest `i` picks `c`: a spread copy of the list
   * (holes become `undefined`) with slot `i` written; a write past the end
   * leaves holes between the old end and the new slot.
   */
  function PickedChoices(choices: seq<Slot<string>>, i: nat, c: string): (r: seq<Slot<string>>)
    ensures |r| == Max(|choices|, i + 1)
    ensures r[i] == Val(c)
    ensures forall k :: 0 <= k < |choices| && k != i ==>
      r[k] == if choices[k].Hole? then Undef else choices[k]
    ensures forall k :: |choices| <= k < i ==> r[k] == Hole
  {
    AssignIndex(Spread(choices), i, c)
  }

  /**
   * One line of the e-mail's food block, `Guest ${index + 1}: ${choice}`:
   * the confirmation page's title for the same slot, ": ", then the choice.
   */
  function FoodLine(k: nat, choice: string): (line: string)
    ensures line == Confirmation.GuestLabel(k) + ": " + choice
    ensures line[0] == 'G'
  {
    "Guest " + NatToDecimal(k + 1) + ": " + choice
  }

  /**
   * `foodChoices.map((choice, index) => ...)`: holes stay holes, and an
   * `undefined` slot is written into its line as the text "undefined".
   */
  function FoodLines(choices: seq<Slot<string>>): (r: seq<Slot<string>>)
    ensures |r| == |choices|
    ensures forall k :: 0 <= k < |choices| ==> (r[k].Hole? <==> choices[k].Hole?)
    ensures forall k :: 0 <= k < |choices| && choices[k].Undef? ==> r[k] == Val(FoodLine(k, "undefined"))
    ensures forall k :: 0 <= k < |choices| && choices[k].Val? ==> r[k] == Val(FoodLine(k, choices[k].value))
  {
    seq(|choices|, k requires 0 <= k < |choices| =>
      match choices[k]
      case Hole => Hole
      case Undef => Val(FoodLine(k, "undefined"))
      case Val(c) => Val(FoodLine(k, c)))
  }

  /**
   * The `food_choices` text: the lines joined by line breaks for an attending
   * party with choices, "N/A" otherwise. The two cases cannot be confused,
   * since joined lines are never the text "N/A".
   */
  function FoodChoicesText(d: FormData): (text: string)
    ensures text == "N/A" <==> !(d.attendance == "yes" && |d.foodChoices| > 0)
    ensures d.attendance == "yes" && |d.foodChoices| > 0 ==> text == Join(FoodLines(d.foodChoices), "\n")
  {
    if d.attendance == "yes" && |d.foodChoices| > 0 then
      JoinedFoodLinesAreNotNA(d.foodChoices);
      Join(FoodLines(d.foodChoices), "\n")
    else "N/A"
  }

  /**
   * The joined food lines of a non-empty list are never "N/A": they start
   * with "G" when the first slot is written or `undefined`, and are "" or
   * start with a line break when it is a hole.
   */
  lemma JoinedFoodLinesAreNotNA(choices: seq<Slot<string>>)
    requires |choices| > 0
    ensures Join(FoodLines(choices), "\n") != "N/A"
  {
    var lines := FoodLines(choices);
    var text := Join(lines, "\n");
    if choices[0].Hole? {
      assert SlotText(lines[0]) == "";
      if |lines| >= 2 {
        assert StartsWith(text, "" + "\n");
        assert text[0] == '\n';
      }
    } else {
      var line := SlotText(lines[0]);
      assert StartsWith(text, line);
      assert text[0] == line[0] == 'G';
    }
  }

  /** The template parameters sent to the e-mail service (keys guest_name, ..., submission_time). */
  datatype TemplateParams = TemplateParams(
    guestName: string,
    guestEmail: string,
    attendance: string,
    guestCount: string,
    foodChoices: string,
    submissionDate: string,
    submissionTime: string)

  /**
   * The parameters built from the form as it is when submitted; the date and
   * time texts come from the clock and locale and are given.
   */
  function TemplateParamsFor(d: FormData, submissionDate: string, submissionTime: string): (p: TemplateParams)
    ensures p.guestName == d.guestName && p.guestEmail == d.email && p.attendance == d.attendance
    ensures p.guestCount == if d.attendance == "yes" then d.guestCount else "N/A"
    ensures p.foodChoices == FoodChoicesText(d)
    ensures d.attendance != "yes" ==> p.foodChoices == "N/A"
    ensures p.submissionDate == submissionDate && p.submissionTime == submissionTime
  {
    TemplateParams(
      d.guestName,
      d.email,
      d.attendance,
      if d.attendance == "yes" then d.guestCount else "N/A",
      FoodChoicesText(d),
      submissionDate,
      submissionTime)
  }

  /** The navigation state handed to the confirmation page. */
  function HandoffFor(d: FormData): (c: Confirmation.ConfirmationData)
    ensures c.guestName == d.guestName && c.guestCount == d.guestCount && c.foodChoices == d.foodChoices
  {
    Confirmation.ConfirmationData(d.guestName, d.guestCount, d.foodChoices)
  }

  /**
   * The length `Array.from({length: guestCount})` receives, clamped below at
   * 0; the selects it builds are rendered only while attendance is "yes",
   * so for any other answer the form shows none whatever this count is.
   */
  function RenderedSlotCount(d: FormData): (n: nat)
    ensures ParseInt(d.guestCount).Num? && ParseInt(d.guestCount).value > 0 ==> n == ParseInt(d.guestCount).value
    ensures ParseInt(d.guestCount).NaN? || ParseInt(d.guestCount).value <= 0 ==> n == 0
  {
    Max(0, CountValue(d.guestCount))
  }

  /** What the select for slot `i` shows: `foodChoices[i] || ""`. */
  function SlotValue(d: FormData, i: nat): (v: string)
    ensures v == "" <==> i >= |d.foodChoices| || !d.foodChoices[i].Val? || d.foodChoices[i] == Val("")
    ensures v != "" ==> d.foodChoices[i] == Val(v)
  {
    if i < |d.foodChoices| then SlotText(d.foodChoices[i]) else ""
  }

  /** The form component's state: the record and the flag that disables the submit button. */
  class RsvpForm {
    var formData: FormData
    var isSubmitting: bool

    constructor ()
      ensures formData == EmptyForm && !isSubmitting
    {
      formData := EmptyForm;
      isSubmitting := false;
    }

    /**
     * `updateField`: stores the raw text in the named field; for the party
     * size it also cuts the food choices to the parsed count.
     */
    method UpdateField(field: Field, value: string)
      modifies this
      ensures isSubmitting == old(isSubmitting)
      ensures field == GuestName ==> formData == old(formData).(guestName := value)
      ensures field == Email ==> formData == old(formData).(email := value)
      ensures field == Attendance ==> formData == old(formData).(attendance := value)
      ensures field == GuestCount ==>
        formData == old(formData).(
          guestCount := value,
          foodChoices := ResizedChoices(old(formData.foodChoices), CountValue(value)))
    {
      var prev := formData;
      var newData := match field
        case GuestName => prev.(guestName := value)
        case Email => prev.(email := value)
        case Attendance => prev.(attendance := value)
        case GuestCount => prev.(guestCount := value);
      if field == GuestCount {
        var newGuestCount := CountValue(value);
        var currentChoices := Spread(prev.foodChoices);
        if newGuestCount < |currentChoices| {
          newData := newData.(foodChoices := Slice(currentChoices, 0, newGuestCount));
        } else {
          newData := newData.(foodChoices := currentChoices);
        }
      }
      formData := newData;
    }

    /**
     * `updateFoodChoice`: writes one slot of a spread copy of the list and
     * stores the copy; the copy has turned every earlier hole into
     * `undefined`, and a write past the end leaves holes before the new slot.
     */
    method UpdateFoodChoice(guestIndex: nat, choice: string)
      modifies this
      ensures isSubmitting == old(isSubmitting)
      ensures formData == old(formData).(foodChoices := PickedChoices(old(formData.foodChoices), guestIndex, choice))
      ensures |formData.foodChoices| == Max(|old(formData.foodChoices)|, guestIndex + 1)
      ensures formData.foodChoices[guestIndex] == Val(choice)
      ensures forall k :: 0 <= k < |old(formData.foodChoices)| && k != guestIndex ==>
        formData.foodChoices[k] == if old(formData.foodChoices)[k].Hole? then Undef else old(formData.foodChoices)[k]
      ensures forall k :: |old(formData.foodChoices)| <= k < guestIndex ==> formData.foodChoices[k] == Hole
    {
      var newChoices := Spread(formData.foodChoices);
      newChoices := AssignIndex(newChoices, guestIndex, choice);
      formData := formData.(foodChoices := newChoices);
    }

    /**
     * `handleSubmit`: builds the parameters from the form as it stands and
     * sends them once; `sendSucceeds` is the e-mail service's answer. On
     * success the confirmation page gets the name, count and choices and the
     * form is emptied; on failure the form is kept for another try. Either
     * way the submitting flag ends false.
     */
    method HandleSubmit(sendSucceeds: bool, submissionDate: string, submissionTime: string)
      returns (params: TemplateParams, handoff: Option<Confirmation.ConfirmationData>)
      modifies this
      ensures params == TemplateParamsFor(old(formData), submissionDate, submissionTime)
      ensures !isSubmitting
      ensures sendSucceeds ==> handoff == Some(HandoffFor(old(formData))) && formData == EmptyForm
      ensures !sendSucceeds ==> handoff == None && formData == old(formData)
    {
      isSubmitting := true;
      params := TemplateParamsFor(formData, submissionDate, submissionTime);
      if sendSucceeds {
        handoff := Some(HandoffFor(formData));
        formData := EmptyForm;
      } else {
        handoff := None;
      }
      isSubmitting := false;
    }
  }

  /** A party size whose text has no digit where `parseInt` looks for one ("" included) empties the choices. */
  lemma NonNumericCountClearsChoices(choices: seq<Slot<string>>, value: string)
    requires Magnitude(Unsigned(value)).NaN?
    ensures CountValue(value) == 0
    ensures ResizedChoices(choices, CountValue(value)) == []
  {
  }

  /** A party size written as the decimal number `n` keeps exactly the first min(len, n) choices. */
  lemma DecimalCountKeepsPrefix(choices: seq<Slot<string>>, n: nat, rest: string)
    requires |rest| == 0 || !IsDigit(rest[0])
    requires n == 0 && |rest| > 0 ==> rest[0] != 'x' && rest[0] != 'X'
    ensures CountValue(NatToDecimal(n) + rest) == n
    ensures ResizedChoices(choices, CountValue(NatToDecimal(n) + rest)) == Spread(choices)[..Min(n, |choices|)]
  {
    ParseIntOfDecimal(n, rest);
  }

  /** After a non-negative party size is set, no stored choice lies beyond the rendered selects. */
  lemma ResizeFitsRenderedSlots(d: FormData, value: string)
    requires CountValue(value) >= 0
    ensures |ResizedChoices(d.foodChoices, CountValue(value))| <=
      RenderedSlotCount(d.(guestCount := value, foodChoices := ResizedChoices(d.foodChoices, CountValue(value))))
  {
  }

  lemma FoodLineHasNoNewline(k: nat, choice: string)
    requires '\n' !in choice
    ensures '\n' !in FoodLine(k, choice)
  {
    var digits := NatToDecimal(k + 1);
    assert '\n' !in digits by {
      forall i | 0 <= i < |digits| ensures digits[i] != '\n' { assert IsDigit(digits[i]); }
    }
  }

  /**
   * For an attending party with choices (none containing a line break), the
   * food text splits into exactly one line per slot, in order: "Guest k+1:
   * <choice>" for a written slot, "Guest k+1: undefined" for an `undefined`
   * slot and an empty line for a hole.
   */
  lemma FoodChoicesTextLines(d: FormData)
    requires d.attendance == "yes" && |d.foodChoices| > 0
    requires forall k :: 0 <= k < |d.foodChoices| && d.foodChoices[k].Val? ==> '\n' !in d.foodChoices[k].value
    ensures var lines := Split(FoodChoicesText(d), '\n');
      |lines| == |d.foodChoices| &&
      forall k :: 0 <= k < |d.foodChoices| ==>
        lines[k] == match d.foodChoices[k]
          case Hole => ""
          case Undef => FoodLine(k, "undefined")
          case Val(c) => FoodLine(k, c)
  {
    var lines := FoodLines(d.foodChoices);
    forall k | 0 <= k < |lines| ensures '\n' !in SlotText(lines[k]) {
      match d.foodChoices[k]
      case Hole =>
      case Undef => FoodLineHasNoNewline(k, "undefined");
      case Val(c) => FoodLineHasNoNewline(k, c);
    }
    SplitJoin(lines, '\n');
  }

  /**
   * The confirmation entries against the mapped food lines: there is an
   * entry for exactly the slots that have a line. For a written slot the
   * entry is, title and choice, that line; for an `undefined` slot the line
   * says "undefined" while the entry shows an empty choice.
   */
  lemma EntriesMatchFoodLines(choices: seq<Slot<string>>)
    ensures var entries := Confirmation.Selections(choices);
      var lines := FoodLines(choices);
      (forall j :: 0 <= j < |entries| ==>
        var s := entries[j];
        s.index < |lines| && !lines[s.index].Hole? &&
        (choices[s.index].Val? ==> lines[s.index] == Val(s.title + ": " + s.choice)) &&
        (choices[s.index].Undef? ==> s.choice == "" && lines[s.index] == Val(s.title + ": undefined"))) &&
      (forall k :: 0 <= k < |lines| && !lines[k].Hole? ==> exists j :: 0 <= j < |entries| && entries[j].index == k)
  {
    var entries := Confirmation.Selections(choices);
    forall j | 0 <= j < |entries|
      ensures var s := entries[j];
        (choices[s.index].Val? ==> FoodLines(choices)[s.index] == Val(s.title + ": " + s.choice)) &&
        (choices[s.index].Undef? ==> s.choice == "" && FoodLines(choices)[s.index] == Val(s.title + ": undefined"))
    {
      EntryMatchesLine(choices, entries[j].index);
    }
  }

  /** The page's entry for a slot that is not a hole, against the mapped line of that slot. */
  lemma EntryMatchesLine(choices: seq<Slot<string>>, k: nat)
    requires k < |choices| && !choices[k].Hole?
    ensures var title := Confirmation.GuestLabel(k);
      var choice := SlotText(choices[k]);
      var line := FoodLines(choices)[k];
      (choices[k].Val? ==> line == Val(title + ": " + choice)) &&
      (choices[k].Undef? ==> choice == "" && line == Val(title + ": undefined"))
  {
    if choices[k].Undef? {
      var title := Confirmation.GuestLabel(k);
      assert FoodLine(k, "undefined") == title + ": " + "undefined";
      assert title + ": " + "undefined" == title + ": undefined";
    }
  }

  /**
   * What the e-mail says and what the confirmation page shows after a
   * submission. The page lists the mapped food lines' slots as
   * `EntriesMatchFoodLines` describes, whatever the attendance; the e-mail
   * carries those lines only when attendance is "yes", and says "N/A"
   * otherwise.
   */
  lemma ConfirmationMatchesEmail(d: FormData)
    ensures var page := Confirmation.Render(Some(HandoffFor(d)));
      page.Details? &&
      (page.foodSelections.Some? <==> |d.foodChoices| > 0) &&
      (page.foodSelections.Some? ==>
        var entries := page.foodSelections.value;
        var lines := FoodLines(d.foodChoices);
        (d.attendance == "yes" ==> FoodChoicesText(d) == Join(lines, "\n")) &&
        (d.attendance != "yes" ==> FoodChoicesText(d) == "N/A") &&
        (forall j :: 0 <= j < |entries| ==>
          var s := entries[j];
          s.index < |lines| && !lines[s.index].Hole? &&
          (d.foodChoices[s.index].Val? ==> lines[s.index] == Val(s.title + ": " + s.choice)) &&
          (d.foodChoices[s.index].Undef? ==> s.choice == "" && lines[s.index] == Val(s.title + ": undefined"))) &&
        (forall k :: 0 <= k < |lines| && !lines[k].Hole? ==> exists j :: 0 <= j < |entries| && entries[j].index == k))
  {
    EntriesMatchFoodLines(d.foodChoices);
  }

  /**
   * A party that declines after filling in the count and choices is mailed
   * "N/A" for both, yet the confirmation page shows the raw count and lists
   * every choice, since the hand-off passes them unchanged.
   */
  lemma DeclinedButListed(d: FormData, submissionDate: string, submissionTime: string)
    requires d.attendance != "yes" && |d.foodChoices| > 0
    ensures var params := TemplateParamsFor(d, submissionDate, submissionTime);
      params.guestCount == "N/A" && params.foodChoices == "N/A"
    ensures var page := Confirmation.Render(Some(HandoffFor(d)));
      page.Details? && page.partySize == Confirmation.PartySizeText(d.guestCount) &&
      page.foodSelections == Some(Confirmation.Selections(d.foodChoices))
  {
  }

  /** Sample: one meal picked, then "no": the e-mail says "N/A" and the page still lists the meal. */
  lemma DeclinedAfterPicking(d: FormData, meal: string)
    requires d.attendance == "no" && d.foodChoices == PickedChoices([], 0, meal)
    ensures FoodChoicesText(d) == "N/A"
    ensures Confirmation.Render(Some(HandoffFor(d))).foodSelections == Some([Confirmation.Selection(0, "Guest 1", meal)])
  {
    assert d.foodChoices == [Val(meal)];
    OneMealListed(meal);
    DeclinedButListed(d, "", "");
  }

  /** A list holding one meal gives the single entry "Guest 1" with that meal. */
  lemma OneMealListed(meal: string)
    ensures Confirmation.Selections([Val(meal)]) == [Confirmation.Selection(0, "Guest 1", meal)]
  {
    Confirmation.SelectionsOfOne(Val(meal));
    FirstGuestNumbers();
    assert Confirmation.GuestLabel(0) == "Guest " + "1" == "Guest 1";
  }

  /** The join of three lines: the three texts with a line break between neighbours. */
  lemma JoinOfThree(lines: seq<Slot<string>>)
    requires |lines| == 3
    ensures Join(lines, "\n") == SlotText(lines[0]) + "\n" + (SlotText(lines[1]) + "\n" + SlotText(lines[2]))
  {
    var tail := lines[1..];
    assert tail[1..] == lines[2..];
    assert Join(lines[2..], "\n") == SlotText(lines[2]);
    assert Join(tail, "\n") == SlotText(lines[1]) + "\n" + SlotText(lines[2]);
  }

  /** The numbers of the first three guests, as their lines write them. */
  lemma FirstGuestNumbers()
    ensures NatToDecimal(1) == "1" && NatToDecimal(2) == "2" && NatToDecimal(3) == "3"
  {
    assert NatToDecimal(1) == [DigitChar(1)];
    assert NatToDecimal(2) == [DigitChar(2)];
    assert NatToDecimal(3) == [DigitChar(3)];
  }

  /** Sample: a hole between two written slots gives an empty middle line. */
  lemma FoodChoicesTextWithHole(d: FormData, first: string, third: string)
    requires d.attendance == "yes" && d.foodChoices == [Val(first), Hole, Val(third)]
    ensures FoodChoicesText(d) == ("Guest " + "1" + ": " + first) + "\n" + ("" + "\n" + ("Guest " + "3" + ": " + third))
  {
    FirstGuestNumbers();
    var lines := FoodLines(d.foodChoices);
    assert SlotText(lines[0]) == FoodLine(0, first);
    assert SlotText(lines[1]) == "";
    assert SlotText(lines[2]) == FoodLine(2, third);
    JoinOfThree(lines);
  }

  /**
   * Picking a choice twice is the same as once exactly when the first pick
   * left no hole, that is when the index is at most the old length: the
   * second pick spreads the holes of the first into `undefined`.
   */
  lemma PickedChoicesIdempotent(choices: seq<Slot<string>>, i: nat, c: string)
    ensures PickedChoices(PickedChoices(choices, i, c), i, c) == PickedChoices(choices, i, c) <==> i <= |choices|
  {
    var once := PickedChoices(choices, i, c);
    var twice := PickedChoices(once, i, c);
    if i <= |choices| {
      assert forall k :: 0 <= k < |once| ==> !once[k].Hole?;
      SpreadWithoutHoles(once);
      AssignIndexIdempotent(once, i, c);
    } else {
      var gap := |choices|;
      assert once[gap] == Hole;
      assert twice[gap] == Undef;
    }
  }

  /**
   * Sample: with three slots rendered, picking for guest 3 and then for
   * guest 1 leaves `undefined` in the middle slot, since the second pick
   * spreads the hole the first one left.
   */
  lemma OutOfOrderPicks(first: string, third: string)
    ensures PickedChoices(PickedChoices(ResizedChoices([], 3), 2, third), 0, first) == [Val(first), Undef, Val(third)]
  {
  }

  /** Sample: after a pick for guest 3, lowering the party size to 2 keeps two `undefined` slots. */
  lemma LatePickThenSmallerCount(third: string)
    ensures ResizedChoices(PickedChoices([], 2, third), 2) == [Undef, Undef]
  {
  }

  /** Sample: an `undefined` slot between two written slots is mailed as "undefined". */
  lemma FoodChoicesTextWithUndefined(d: FormData, first: string, third: string)
    requires d.attendance == "yes" && d.foodChoices == [Val(first), Undef, Val(third)]
    ensures FoodChoicesText(d) ==
      ("Guest " + "1" + ": " + first) + "\n" + (("Guest " + "2" + ": " + "undefined") + "\n" + ("Guest " + "3" + ": " + third))
  {
    FirstGuestNumbers();
    var lines := FoodLines(d.foodChoices);
    assert SlotText(lines[0]) == FoodLine(0, first);
    assert SlotText(lines[1]) == FoodLine(1, "undefined");
    assert SlotText(lines[2]) == FoodLine(2, third);
    JoinOfThree(lines);
  }
}
