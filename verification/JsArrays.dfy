/**
 * The JavaScript array operations the RSVP form uses on its list of food
 * choices. A JavaScript array may have holes (indices that were never
 * written), and an index may also hold the value `undefined`; the two print
 * alike but `map` skips only the first. A slot is therefore a `Slot<T>`:
 * `Hole`, `Undef`, or `Val` of a value.
 */
module JsArrays {
  import opened JsStrings

  /** One index of a JavaScript array: never written, holding `undefined`, or holding a value. */
  datatype Slot<+T> = Hole | Undef | Val(value: T)

  function Min(a: int, b: int): int { if a <= b then a else b }

  function Max(a: int, b: int): int { if a >= b then a else b }

  /** How `Array.prototype.slice` resolves a relative index against a length. */
  function RelativeIndex(k: int, len: nat): (r: nat)
    ensures r <= len
    ensures 0 <= k ==> r == Min(k, len)
    ensures k < 0 ==> r == Max(0, len + k)
  {
    if k < 0 then (if len + k < 0 then 0 else len + k) else if k > len then len else k
  }

  /** `s.slice(start, end)`: the elements from `start` up to, not including, `end`. */
  function Slice<T>(s: seq<T>, start: int, end: int): (r: seq<T>)
    ensures |r| <= |s|
    ensures RelativeIndex(start, |s|) <= RelativeIndex(end, |s|) ==>
      r == s[RelativeIndex(start, |s|)..RelativeIndex(end, |s|)]
    ensures RelativeIndex(end, |s|) <= RelativeIndex(start, |s|) ==> r == []
  {
    var from := RelativeIndex(start, |s|);
    var to := RelativeIndex(end, |s|);
    if from < to then s[from..to] else []
  }

  /**
   * `[...a]`: a copy made through the array iterator, which reads a hole as
   * `undefined`. The copy has the same length and no holes.
   */
  function Spread<T>(a: seq<Slot<T>>): (r: seq<Slot<T>>)
    ensures |r| == |a|
    ensures forall k :: 0 <= k < |a| ==> r[k] == if a[k].Hole? then Undef else a[k]
    ensures forall k :: 0 <= k < |r| ==> !r[k].Hole?
  {
    seq(|a|, k requires 0 <= k < |a| => if a[k].Hole? then Undef else a[k])
  }

  /** Spreading a hole-free array copies it unchanged. */
  lemma SpreadWithoutHoles<T>(a: seq<Slot<T>>)
    requires forall k :: 0 <= k < |a| ==> !a[k].Hole?
    ensures Spread(a) == a
  {
  }

  /** `n` holes: what an array gains between its old end and a write past it. */
  function Holes<T>(n: nat): (r: seq<Slot<T>>)
    ensures |r| == n && forall k :: 0 <= k < n ==> r[k] == Hole
  {
    seq(n, _ => Hole)
  }

  /**
   * `a[i] = v` on an array: slot `i` now holds `v`; writing past the end
   * extends the array to length `i + 1` and leaves holes in between.
   */
  function AssignIndex<T>(a: seq<Slot<T>>, i: nat, v: T): (r: seq<Slot<T>>)
    ensures |r| == Max(|a|, i + 1)
    ensures r[i] == Val(v)
    ensures forall k :: 0 <= k < |a| && k != i ==> r[k] == a[k]
    ensures forall k :: |a| <= k < i ==> r[k] == Hole
  {
    if i < |a| then a[i := Val(v)] else a + Holes(i - |a|) + [Val(v)]
  }

  /** Writing the same value to the same index twice is the same as once. */
  lemma AssignIndexIdempotent<T>(a: seq<Slot<T>>, i: nat, v: T)
    ensures AssignIndex(AssignIndex(a, i, v), i, v) == AssignIndex(a, i, v)
  {
  }

  /**
   * How `join` prints one slot, which is also what React renders for it: a
   * hole or `undefined` as the empty string, a text as itself.
   */
  function SlotText(x: Slot<string>): (t: string)
    ensures x.Val? ==> t == x.value
    ensures !x.Val? ==> t == ""
  {
    match x
    case Hole => ""
    case Undef => ""
    case Val(s) => s
  }

  /** The texts `join` prints for each slot, in order. */
  function SlotTexts(a: seq<Slot<string>>): (r: seq<string>)
    ensures |r| == |a| && forall k :: 0 <= k < |a| ==> r[k] == SlotText(a[k])
  {
    seq(|a|, k requires 0 <= k < |a| => SlotText(a[k]))
  }

  /**
   * `a.join(sep)`: the slot texts with `sep` between neighbours. An empty
   * array joins to ""; otherwise the text starts with the first slot's text,
   * followed by `sep` when there is a second slot, and ends with the last
   * slot's text.
   */
  function Join(a: seq<Slot<string>>, sep: string): (r: string)
    ensures |a| == 0 ==> r == ""
    ensures |a| == 1 ==> r == SlotText(a[0])
    ensures |a| >= 2 ==> StartsWith(r, SlotText(a[0]) + sep)
    ensures |a| >= 1 ==> StartsWith(r, SlotText(a[0])) && EndsWith(r, SlotText(a[|a| - 1]))
  {
    if |a| == 0 then ""
    else if |a| == 1 then
      PrefixOfConcat(SlotText(a[0]), "");
      SuffixOfConcat("", SlotText(a[0]));
      assert SlotText(a[0]) + "" == SlotText(a[0]) == "" + SlotText(a[0]);
      SlotText(a[0])
    else
      var head := SlotText(a[0]) + sep;
      var tail := Join(a[1..], sep);
      assert a[1..][|a| - 2] == a[|a| - 1];
      PrefixOfConcat(head, tail);
      StartsWithShorter(head + tail, SlotText(a[0]), sep);
      SuffixOfConcat(head, tail);
      EndsWithTrans(head + tail, tail, SlotText(a[|a| - 1]));
      head + tail
  }

  /**
   * `s.split(sep)` for a one-character separator: the pieces between
   * separators; a text without one is a single piece, "" included.
   */
  function Split(s: string, sep: char): (r: seq<string>)
    ensures |r| >= 1
  {
    if |s| == 0 then [""]
    else if s[0] == sep then [""] + Split(s[1..], sep)
    else
      var rest := Split(s[1..], sep);
      [[s[0]] + rest[0]] + rest[1..]
  }

  /** A text without the separator splits into itself. */
  lemma {:induction false} SplitWithoutSeparator(s: string, sep: char)
    requires sep !in s
    ensures Split(s, sep) == [s]
  {
    if |s| > 0 {
      SplitWithoutSeparator(s[1..], sep);
      assert [s[0]] + s[1..] == s;
    }
  }

  /** A separator-free piece followed by the separator splits off as the first piece. */
  lemma {:induction false} SplitAtSeparator(a: string, sep: char, rest: string)
    requires sep !in a
    ensures Split(a + [sep] + rest, sep) == [a] + Split(rest, sep)
  {
    var s := a + [sep] + rest;
    if |a| == 0 {
      assert s == [sep] + rest;
      assert s[1..] == rest;
    } else {
      assert s[1..] == a[1..] + [sep] + rest;
      SplitAtSeparator(a[1..], sep, rest);
      assert [a[0]] + a[1..] == a;
    }
  }

  /** A join of two or more slots is the first slot's text, `sep`, then the join of the rest. */
  lemma JoinCons(a: seq<Slot<string>>, sep: string)
    requires |a| >= 2
    ensures Join(a, sep) == SlotText(a[0]) + sep + Join(a[1..], sep)
  {
  }

  lemma SlotTextsCons(a: seq<Slot<string>>)
    requires |a| >= 1
    ensures SlotTexts(a) == [SlotText(a[0])] + SlotTexts(a[1..])
  {
    var texts := SlotTexts(a);
    assert forall k :: 1 <= k < |a| ==> texts[k] == SlotTexts(a[1..])[k - 1];
  }

  /**
   * Splitting a non-empty join on its separator recovers one piece per slot,
   * provided no slot text contains the separator.
   */
  lemma {:induction false} SplitJoin(a: seq<Slot<string>>, sep: char)
    requires |a| >= 1
    requires forall k :: 0 <= k < |a| ==> sep !in SlotText(a[k])
    ensures Split(Join(a, [sep]), sep) == SlotTexts(a)
  {
    if |a| == 1 {
      SplitWithoutSeparator(SlotText(a[0]), sep);
    } else {
      var tail := a[1..];
      JoinCons(a, [sep]);
      assert forall k :: 0 <= k < |tail| ==> tail[k] == a[k + 1];
      SplitJoin(tail, sep);
      SplitAtSeparator(SlotText(a[0]), sep, Join(tail, [sep]));
      SlotTextsCons(a);
    }
  }
}
