/**
 * The deduplication tag a notification carries, `med-<id>-<HH:MM>`, and the fact that
 * it identifies the (medication id, slot) pair it was made from.
 */
module Tags {
  import opened Schedule
  import opened Sweep

  predicate IsDigit(c: char) {
    '0' <= c <= '9'
  }

  function DigitChar(d: nat): (c: char)
    requires d < 10
    ensures IsDigit(c) && c as int - '0' as int == d
  {
    "0123456789"[d]
  }

  /** The decimal text of a natural number, as JavaScript's `toString` writes it. */
  function NatToString(n: nat): (s: string)
    ensures |s| >= 1 && (n < 10 <==> |s| == 1)
    ensures forall i :: 0 <= i < |s| ==> IsDigit(s[i])
    decreases n
  {
    if n < 10 then [DigitChar(n)] else NatToString(n / 10) + [DigitChar(n % 10)]
  }

  /** The decimal text of an integer, with a leading '-' when negative. */
  function IntToString(i: int): string {
    if i < 0 then "-" + NatToString(-i) else NatToString(i)
  }

  /** `n.toString().padStart(2, '0')`. */
  function Pad2(n: nat): string {
    var s := NatToString(n);
    if |s| < 2 then "0" + s else s
  }

  /** The "HH:MM" text of a slot. */
  function SlotText(s: Slot): string {
    Pad2(s.hour) + ":" + Pad2(s.minute)
  }

  /** The notification tag `med-${id}-${scheduledTime}`. */
  function Tag(n: Notice): string {
    "med-" + IntToString(n.medId) + "-" + SlotText(n.slot)
  }

  /** Distinct numbers have distinct decimal texts. */
  lemma {:induction false} NatToStringInjective(a: nat, b: nat)
    requires NatToString(a) == NatToString(b)
    ensures a == b
    decreases a
  {
    var sa, sb := NatToString(a), NatToString(b);
    if a >= 10 {
      assert b >= 10;
      assert sa[|sa| - 1] == DigitChar(a % 10) && sb[|sb| - 1] == DigitChar(b % 10);
      assert sa[..|sa| - 1] == NatToString(a / 10);
      assert sb[..|sb| - 1] == NatToString(b / 10);
      NatToStringInjective(a / 10, b / 10);
    } else {
      assert sa[0] == DigitChar(a) && sb[0] == DigitChar(b);
    }
  }

  /** Distinct integers have distinct decimal texts. */
  lemma IntToStringInjective(a: int, b: int)
    requires IntToString(a) == IntToString(b)
    ensures a == b
  {
    var sa, sb := IntToString(a), IntToString(b);
    assert sa[0] == '-' <==> a < 0;
    assert sb[0] == '-' <==> b < 0;
    if a < 0 {
      assert sa[1..] == NatToString(-a) && sb[1..] == NatToString(-b);
      NatToStringInjective(-a, -b);
    } else {
      NatToStringInjective(a, b);
    }
  }

  /** A number below 100 pads to its two decimal digits. */
  lemma Pad2Digits(n: nat)
    requires n < 100
    ensures Pad2(n) == [DigitChar(n / 10), DigitChar(n % 10)]
  {
    if n >= 10 {
      assert NatToString(n / 10) == [DigitChar(n / 10)];
    }
  }

  /** The text of a well-formed slot is five characters long and determines the slot. */
  lemma SlotTextInjective(s1: Slot, s2: Slot)
    requires ValidSlot(s1) && ValidSlot(s2)
    requires SlotText(s1) == SlotText(s2)
    ensures s1 == s2
  {
    Pad2Digits(s1.hour);
    Pad2Digits(s1.minute);
    Pad2Digits(s2.hour);
    Pad2Digits(s2.minute);
    var t1, t2 := SlotText(s1), SlotText(s2);
    assert t1[0] == t2[0] && t1[1] == t2[1] && t1[3] == t2[3] && t1[4] == t2[4];
  }

  /**
   * The tag identifies the notice: two notices for well-formed slots share a tag only
   * when they name the same medication id and the same slot.
   */
  lemma TagInjective(n1: Notice, n2: Notice)
    requires ValidSlot(n1.slot) && ValidSlot(n2.slot)
    requires Tag(n1) == Tag(n2)
    ensures n1 == n2
  {
    Pad2Digits(n1.slot.hour);
    Pad2Digits(n1.slot.minute);
    Pad2Digits(n2.slot.hour);
    Pad2Digits(n2.slot.minute);
    var i1, i2 := IntToString(n1.medId), IntToString(n2.medId);
    var t1, t2 := Tag(n1), Tag(n2);
    assert |SlotText(n1.slot)| == 5 && |SlotText(n2.slot)| == 5;
    assert |i1| == |i2|;
    assert t1[..|t1| - 5] == "med-" + i1 + "-";
    assert t2[..|t2| - 5] == "med-" + i2 + "-";
    assert t1[|t1| - 5..] == SlotText(n1.slot);
    assert t2[|t2| - 5..] == SlotText(n2.slot);
    assert i1 == ("med-" + i1 + "-")[4..4 + |i1|];
    assert i2 == ("med-" + i2 + "-")[4..4 + |i2|];
    IntToStringInjective(n1.medId, n2.medId);
    SlotTextInjective(n1.slot, n2.slot);
  }
}
