# Wedding RSVP form: a Dafny model

This project models the logic of a wedding RSVP web page. The page has two parts:

- **The RSVP form** (`src/components/WeddingRSVP.tsx`). It holds a form record `{guestName, email, attendance, guestCount, foodChoices}` and an `isSubmitting` flag. Three handlers change them:
  - `updateField` stores a field's raw text. For the party size it also cuts the food-choice list down to `parseInt(value) || 0`.
  - `updateFoodChoice` writes one slot of the food-choice list.
  - `handleSubmit` builds the e-mail parameters, sends them once, and then either hands the data to the confirmation page and empties the form, or keeps the form.
- **The confirmation page** (`src/pages/Confirmation.tsx`). With no navigation state it redirects to `/`. Otherwise it shows:
  - the guest name;
  - the raw party-size text, followed by "Guest" or "Guests";
  - one entry per food-choice slot that is not a hole, in order.

The model has four main modules, plus two small shared ones: `Wrappers` holds the `Option` type, and `JsStrings` holds the `startsWith`/`endsWith` tests used to state what `join` writes.

- `JsNumbers` is JavaScript's `parseInt` without a radix (section 19.2.5 of ECMA-262). It covers leading whitespace and line terminators, one optional sign, the `0x` prefix, the longest digit prefix, and NaN. It also has the decimal text of a non-negative integer, as a template literal writes it below 10^21.
- `JsArrays` covers the JavaScript array behaviour the form relies on. A slot is `Slot<string>`: `Hole` (an index never written), `Undef` (an index holding `undefined`) or `Val(s)`. The difference matters because `map` skips holes but not `undefined`. The module has the spread copy `[...a]` (every hole becomes `undefined`), `slice`, index assignment (a write past the end leaves holes), and `join` (a hole and `undefined` both print as ""). It also defines `split` on one character. The form never calls `split`; it is a reference definition, used only to state that the joined food text has one line per slot (`SplitJoin`, `FoodChoicesTextLines`).
- `Confirmation` is the confirmation page as pure functions over `Option<ConfirmationData>`.
- `WeddingRsvp` has the form record as a datatype and pure functions for the e-mail parameters and the hand-off. The component's state is a class, `RsvpForm`, with one method per handler.

What the code does not do, so neither does the model:

- It keeps no list of guest names; only the submitter's name is stored.
- It never copies the submitter's name into a guest slot.
- Raising the party size never grows the food list. It only truncates.
- It labels every e-mail food line `Guest N`, the first one included.
- It checks neither the e-mail format nor that the party size lies in [1, 10]. Only browser attributes (`required`, `min`, `max`) exist, and they are not modelled.

Details of the code, all modelled as written:

- A negative party size such as "-1" reaches `slice(0, n)`. That keeps max(0, len + n) slots, not zero: `slice` counts a negative end back from the end of the list. The form then renders no food select at all (`ResizedChoices`, `RenderedSlotCount`).
- `parseInt` reads "1.5" as 1, so the confirmation page says "1.5 Guest" (`NounOfFractionalOne`).
- Both handlers copy the list with `[...prev.foodChoices]`, which turns every hole into `undefined`. Picking for guest 3 and then for guest 1 therefore leaves `undefined` in guest 2's slot, index 1 (`OutOfOrderPicks`). The e-mail then has the line "Guest 2: undefined" (`FoodChoicesTextWithUndefined`), while the confirmation page shows a "Guest 2" entry with an empty choice (`ConfirmationMatchesEmail`). A hole lasts until the next pick or party-size change. Picking for guest 1 and then for guest 3 leaves a hole in guest 2's slot, and submitting then mails an empty line for it (`FoodChoicesTextWithHole`).
- Answering "no" keeps the party size and the food choices already entered; the inputs are only hidden. The e-mail then says "N/A" for both, but the hand-off passes the raw count and the list unchanged, so the confirmation page still shows the count and an entry per picked meal (`DeclinedButListed`, `DeclinedAfterPicking`).

## Model

| member | source | states |
|---|---|---|
| `JsNumbers.ParseInt` | src/components/WeddingRSVP.tsx:100 | the result is NaN exactly when the unsigned part has no digit where one is expected; otherwise it is the sign of the trimmed text times the magnitude |
| `JsNumbers.Magnitude` | src/components/WeddingRSVP.tsx:100 | NaN exactly when no decimal digit starts the text, or when "0x" is not followed by a hex digit; otherwise a non-negative value |
| `JsNumbers.NatToDecimal` | src/components/WeddingRSVP.tsx:38 | the text is a non-empty string of decimal digits with no leading zero, as `${index + 1}` writes it below 10^21 |
| `JsNumbers.ParseIntOfIntToDecimal` | src/components/WeddingRSVP.tsx:100 | `parseInt` reads back the decimal text of every integer, negative ones included |
| `JsNumbers.ParseIntOfDecimal` | src/components/WeddingRSVP.tsx:100 | decimal text followed by any non-digit text reads back as its number; a bare "0" must not be followed by 'x' |
| `JsNumbers.ParseIntOfNegativeDecimal` | src/components/WeddingRSVP.tsx:100 | the same round trip with a leading '-' gives the negated number |
| `JsNumbers.ParseIntSkipsWhitespace` | src/components/WeddingRSVP.tsx:100 | leading ECMAScript whitespace and line terminators never change the result |
| `JsNumbers.ParseIntSkipsSurroundingText` | src/components/WeddingRSVP.tsx:100 | " 12abc" reads as 12 |
| `JsNumbers.ParseIntStopsAtPoint` | src/components/WeddingRSVP.tsx:100 | "3.7" reads as 3 |
| `JsNumbers.ParseIntNegative` | src/components/WeddingRSVP.tsx:100 | "-4" reads as -4 |
| `JsNumbers.ParseIntHexExample` | src/components/WeddingRSVP.tsx:100 | "0x1A" reads as 26: without a radix, "0x" switches to radix 16 |
| `JsNumbers.ParseIntEmptyIsNaN` | src/components/WeddingRSVP.tsx:100 | "" reads as NaN |
| `JsNumbers.ParseIntSignOnlyIsNaN` | src/components/WeddingRSVP.tsx:100 | "-" reads as NaN |
| `JsNumbers.ParseIntBareHexPrefixIsNaN` | src/components/WeddingRSVP.tsx:100 | "0x" with no hex digit after it reads as NaN |
| `JsNumbers.ParseIntWordIsNaN` | src/components/WeddingRSVP.tsx:100 | "two" reads as NaN |
| `JsArrays.Slice` | src/components/WeddingRSVP.tsx:105 | `slice(start, end)` gives the elements between the two resolved indices, or nothing when they cross; it never makes the list longer |
| `JsArrays.Spread` | src/components/WeddingRSVP.tsx:101 | `[...a]` has the same length as `a`, turns each hole into `undefined`, keeps every other slot, and leaves no hole |
| `JsArrays.AssignIndex` | src/components/WeddingRSVP.tsx:117-118 | after `a[i] = v`, slot i holds v, every other old slot is unchanged, the length is max(len, i+1), and the new slots in between are holes |
| `JsArrays.AssignIndexIdempotent` | src/components/WeddingRSVP.tsx:118 | writing the same value to the same index of one array twice gives the same array as writing it once (the handler, which spreads first, is covered by `PickedChoicesIdempotent`) |
| `JsArrays.SlotText` | src/pages/Confirmation.tsx:93 | a written slot prints as its text; a hole or `undefined` prints as "" (as React renders it and as `join` writes it) |
| `JsArrays.Join` | src/components/WeddingRSVP.tsx:38 | `join` of no slots is "", of one slot is that slot's text; otherwise the text starts with the first slot's text followed by the separator and ends with the last slot's text |
| `JsArrays.SplitJoin` | src/components/WeddingRSVP.tsx:38 | splitting a non-empty `join` on its one-character separator gives back one text per slot (a hole or `undefined` gives ""), provided no slot contains the separator |
| `WeddingRsvp.CountValue` | src/components/WeddingRSVP.tsx:100 | `parseInt(v)` with the `or 0` fallback is 0 for NaN and the parsed value otherwise |
| `WeddingRsvp.ResizedChoices` | src/components/WeddingRSVP.tsx:99-108 | the new list is a prefix of the spread copy of the old one (holes read as `undefined`), never longer and with no hole; its length is min(n, len) for n ≥ 0 and max(0, len + n) for negative n |
| `WeddingRsvp.PickedChoices` | src/components/WeddingRSVP.tsx:115-121 | after guest i picks c, slot i holds c, every other old slot is kept except that a hole becomes `undefined`, the length is max(len, i+1), and the slots between the old end and i are holes |
| `WeddingRsvp.PickedChoicesIdempotent` | src/components/WeddingRSVP.tsx:115-121 | the same pick made twice gives the same list as once if and only if i ≤ len; past the end, the second pick turns the first one's holes into `undefined` |
| `WeddingRsvp.OutOfOrderPicks` | src/components/WeddingRSVP.tsx:99-121 | with party size 3, a pick for guest 3 and then one for guest 1 give [c1, undefined, c3] |
| `WeddingRsvp.LatePickThenSmallerCount` | src/components/WeddingRSVP.tsx:99-121 | a pick for guest 3 followed by party size 2 leaves [undefined, undefined] |
| `WeddingRsvp.NonNumericCountClearsChoices` | src/components/WeddingRSVP.tsx:96-105 | a party size with no digit where `parseInt` looks for one ("" included) counts as 0 and empties the food list |
| `WeddingRsvp.DecimalCountKeepsPrefix` | src/components/WeddingRSVP.tsx:99-108 | a party size written as the number n (even with trailing text) counts as n and keeps exactly the first min(len, n) slots of the spread copy |
| `WeddingRsvp.ResizeFitsRenderedSlots` | src/components/WeddingRSVP.tsx:99-108 | after a non-negative party size is set, the food list is no longer than the number of selects rendered from that size |
| `WeddingRsvp.RenderedSlotCount` | src/components/WeddingRSVP.tsx:277 | the length `Array.from({length: guestCount})` receives is the parsed party size when positive, and 0 for NaN, zero or a negative size; the selects exist only while attendance is "yes" (line 240) |
| `WeddingRsvp.SlotValue` | src/components/WeddingRSVP.tsx:284 | a select shows "" exactly for a slot past the end, a hole, `undefined` or an empty choice; otherwise it shows the stored choice |
| `WeddingRsvp.FoodLine` | src/components/WeddingRSVP.tsx:38 | an e-mail food line is the confirmation page's title for the same slot ("Guest " and the slot number from 1), ": ", then the choice; it starts with 'G' |
| `WeddingRsvp.FoodLines` | src/components/WeddingRSVP.tsx:38 | `map` keeps the length, leaves exactly the holes as holes, writes each choice into its slot's line and an `undefined` slot as the text "undefined" |
| `WeddingRsvp.FoodChoicesText` | src/components/WeddingRSVP.tsx:37-39 | the food text is "N/A" if and only if attendance is not exactly "yes" or the list is empty; otherwise it is the food lines joined by line breaks |
| `WeddingRsvp.JoinedFoodLinesAreNotNA` | src/components/WeddingRSVP.tsx:37-39 | the joined food lines of a non-empty list are never the text "N/A", so the two branches of the food text cannot be confused |
| `WeddingRsvp.FoodChoicesTextLines` | src/components/WeddingRSVP.tsx:37-39 | for an attending party with choices, the text has exactly one line per slot, in order: "Guest k+1: choice" for a written slot, "Guest k+1: undefined" for an `undefined` slot and "" for a hole |
| `WeddingRsvp.FoodChoicesTextWithHole` | src/components/WeddingRSVP.tsx:37-39 | [c1, hole, c3] gives "Guest 1: c1", an empty line, then "Guest 3: c3" |
| `WeddingRsvp.FoodChoicesTextWithUndefined` | src/components/WeddingRSVP.tsx:37-39 | [c1, undefined, c3] gives "Guest 1: c1", "Guest 2: undefined", then "Guest 3: c3" |
| `WeddingRsvp.TemplateParamsFor` | src/components/WeddingRSVP.tsx:41-49 | name, e-mail and attendance are copied verbatim; guest_count is the raw count when attendance is "yes" and "N/A" otherwise; food_choices is the food text (`FoodChoicesText`), which is "N/A" when not attending; date and time are the given texts |
| `WeddingRsvp.HandoffFor` | src/components/WeddingRSVP.tsx:65-71 | the confirmation page gets the form's name, raw count text and food list unchanged |
| `WeddingRsvp.RsvpForm.constructor` | src/components/WeddingRSVP.tsx:19-27 | the form starts empty and not submitting |
| `WeddingRsvp.RsvpForm.UpdateField` | src/components/WeddingRSVP.tsx:94-113 | only the named field changes; for the party size, the raw text is stored and the food list becomes `ResizedChoices` of the old one (a spread copy, cut to the parsed size); the flag is unchanged |
| `WeddingRsvp.RsvpForm.UpdateFoodChoice` | src/components/WeddingRSVP.tsx:115-121 | only the food list changes, as `PickedChoices` says: slot i holds the choice, every other old slot is kept except that a hole becomes `undefined`, and the gap past the old end is filled with holes |
| `WeddingRsvp.RsvpForm.HandleSubmit` | src/components/WeddingRSVP.tsx:31-92 | the parameters come from the form as it was before the send; on success the hand-off carries the old name, count and choices and the form is empty again; on failure there is no hand-off and the form is unchanged; the flag ends false |
| `WeddingRsvp.EntriesMatchFoodLines` | src/pages/Confirmation.tsx:87-96 | the page has an entry for exactly the slots that `map` gives a food line; a written slot's entry is its line (title, ": ", choice), while an `undefined` slot's line says "undefined" and its entry shows an empty choice |
| `WeddingRsvp.ConfirmationMatchesEmail` | src/pages/Confirmation.tsx:81-96 | after a submission the page has a food section exactly when the list is non-empty, with entries that match the mapped food lines slot by slot whatever the attendance; the e-mail's food text is those lines joined when attendance is "yes" and "N/A" otherwise |
| `WeddingRsvp.DeclinedButListed` | src/components/WeddingRSVP.tsx:37-71 | for a party that does not answer "yes" and has choices, the e-mail's guest count and food text are both "N/A", while the page shows the raw count's party-size line and lists every slot that is not a hole |
| `WeddingRsvp.DeclinedAfterPicking` | src/components/WeddingRSVP.tsx:37-71 | one meal picked for guest 1 and then "no": the e-mail's food text is "N/A" and the page shows the entry "Guest 1" with that meal |
| `Confirmation.Render` | src/pages/Confirmation.tsx:12-99 | no state gives a redirect to "/" with replace, and only then; otherwise the page shows the name verbatim and the party-size line `PartySizeText` of the raw count, which starts with the count and continues " Guest" exactly when `parseInt(count) === 1` and " Guests" exactly when it is not; the food section appears exactly when the list is non-empty |
| `Confirmation.Noun` | src/pages/Confirmation.tsx:76 | "Guest" exactly when the count parses to 1, "Guests" otherwise (NaN included) |
| `Confirmation.PartySizeText` | src/pages/Confirmation.tsx:76 | the party-size line is the raw count text followed by " Guest" when it parses to exactly 1 and by " Guests" otherwise (NaN included) |
| `Confirmation.GuestLabel` | src/pages/Confirmation.tsx:90 | an entry title is "Guest " followed by the slot number counted from 1 |
| `Confirmation.Selections` | src/pages/Confirmation.tsx:87-96 | the entries list the slots (`ListsSlots`): each entry comes from a slot that is not a hole, titled by its own slot, showing the written choice or "" for `undefined`; entries are in strictly increasing slot order; every slot that is not a hole has an entry; holes give none |
| `Confirmation.SelectionsOfOne` | src/pages/Confirmation.tsx:87-96 | a one-slot list that is not a hole gives the single entry "Guest 1" with that slot's text |
| `Confirmation.NounOfDecimal` | src/pages/Confirmation.tsx:76 | a count written as the number n, even with trailing text, gives "Guest" exactly when n is 1 |
| `Confirmation.NounOfNonNumeric` | src/pages/Confirmation.tsx:76 | a count with no digit where `parseInt` looks for one (the exact NaN condition, a bare "0x" included) gives "Guests" |
| `Confirmation.NounOfBareHexPrefix` | src/pages/Confirmation.tsx:76 | "0x" gives "Guests" |
| `Confirmation.NounOfFractionalOne` | src/pages/Confirmation.tsx:76 | "1.5" gives "Guest" |
| `Confirmation.NounOfTwo` | src/pages/Confirmation.tsx:76 | "2" gives "Guests" |
| `Confirmation.NounOfEmptyAndWord` | src/pages/Confirmation.tsx:76 | "" and "one" give "Guests" |

## Left out

- The call to the e-mail service (`emailjs.send`, src/components/WeddingRSVP.tsx:52-57) is a foreign asynchronous call. `HandleSubmit` takes its success or failure as the `sendSucceeds` parameter. The parameters it returns are what is sent.
- The submission date and time depend on the clock and the locale. They are passed in as texts.
- Toasts, `console.error`, the router's `navigate`/`Navigate` and `window.location` (the "Back to Home" button) are left out. The model gives only the data they receive: the hand-off and the redirect target with its replace flag.
- JSX layout, styling, the fixed wedding text and the menu values are presentation. They are not modelled.
- Browser validation is not modelled: the `required` attributes, `type="email"` and `min`/`max` on the party size. `HandleSubmit` accepts any form state, because the component's own code checks nothing.
- React's asynchronous state batching is left out. Each handler is one atomic step, so the `isSubmitting == true` window while the send is pending is not observable. No second submission can interleave with a first.
- The service, template and public-key constants are opaque configuration for the external service.
- `JsNumbers.NatToDecimal`: writes plain digits for every n. JavaScript switches to exponent form from 10^21 on ("1e+21"), which the form never reaches, since its slot numbers stay below 2^32.
- `RsvpForm.UpdateField`: `field` is one of the four names the inputs pass. A call with any other key, which would add a new property to the record, is not modelled.
- `JsNumbers.ParseInt`: the result is an exact integer. Rounding to the nearest double above 2^53, the approximation allowed for more than 20 significant digits, and -0 are not modelled. `|| 0` turns -0 into 0 anyway.
- `JsArrays.AssignIndex`: the index is unbounded. JavaScript's array length limit of 2^32 - 1 is not modelled, since the form only writes indices below the rendered slot count.
- `WeddingRsvp.RenderedSlotCount`: `Array.from({length})` is modelled as clamping at 0 only. Its upper clamp and its RangeError for huge lengths are not modelled.
- The confirmation page is assumed to receive the shape the form sends, with holes and `undefined` slots preserved by the history state. A malformed state, for example one with no `foodChoices`, is not modelled.
