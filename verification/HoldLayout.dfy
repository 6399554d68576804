// Where every field of a hold message stands (crates/anchor/src/handles.rs), by
// byte offset.

module HoldLayout {
  import opened Wire
  import opened Offsets
  import opened HoldMessages

  /** A message is 562 bytes: "SLHD", a kind, an id, what the kind says, zeros, and a checksum of the 558 before it. */
  lemma {:induction false} MessageFields(crc: Checksum, m: Message)
    requires WellShaped(m)
    ensures var b := Encoded(crc, m);
      && |b| == 562 && HasBytes(b, 0, [0x53, 0x4C, 0x48, 0x44]) && HasWord(b, 5, m.id, 8)
      && b[4] == (match m
                  case Hold(_, _, _, _) => 1
                  case Release(_) => 2
                  case Held(_) => 3
                  case HoldRefused(_, _) => 4
                  case Released(_) => 5)
      && HasWord(b, 558, crc(b[..558]), 4) && b[13..558] == Payload(m)
  {
    hide Le, Payload;
    var b, head := Encoded(crc, m), Checked(m);
    assert b[..558] == head;
    assert b == HOLD_MAGIC + [KindOf(m)] + Le(m.id, 8) + Payload(m) + Le(crc(head), 4);
    assert b[558..] == Le(crc(head), 4);
    assert b[558..562] == b[558..];
  }

  /** A hold says what it is of, how many handles, each in its slot, and its record after the record's length. */
  lemma {:induction false} HoldFields(m: Message, k: nat)
    requires WellShaped(m) && m.Hold? && k < |m.values|
    ensures var p := Payload(m);
      && |p| == 545 && p[0] == m.what && p[1] == |m.values| && HasWord(p, 2 + 8 * k, m.values[k], 8)
      && HasWord(p, 26, |m.record|, 2) && HasBytes(p, 28, m.record)
      && (forall i :: 2 + 8 * |m.values| <= i < 26 ==> p[i] == 0)
      && (forall i :: 28 + |m.record| <= i < 545 ==> p[i] == 0)
  {
    hide Le, Zeros, Slots, HasWord, HasBytes;
    var p, slots, pad := Payload(m), Slots(m.values), Zeros(517 - |m.record|);
    var p3 := m.record + pad;
    var p2 := Le(|m.record|, 2) + p3;
    var p1 := slots + p2;
    Nested([m.what, |m.values|], slots, Le(|m.record|, 2), m.record, pad);
    assert p[0..] == p;
    PeelBytes(p, 0, [m.what, |m.values|], p1);
    PeelBytes(p, 2, slots, p2);
    PeelWord(p, 26, |m.record|, 2, p3);
    PeelBytes(p, 28, m.record, pad);
    FirstTwo(p, m.what, |m.values|);
    SlotAt(p, m.values, k);
    PadAt(p, 28 + |m.record|, pad);
  }

  lemma {:induction false} Nested(a: Bytes, b: Bytes, c: Bytes, d: Bytes, e: Bytes)
    ensures a + b + c + d + e == a + (b + (c + (d + e)))
  {
  }

  lemma {:induction false} FirstTwo(p: Bytes, x: Byte, y: Byte)
    requires HasBytes(p, 0, [x, y])
    ensures p[0] == x && p[1] == y
  {
    assert p[0..2][0] == x && p[0..2][1] == y;
  }

  lemma {:induction false} SliceOf(p: Bytes, at: nat, s: Bytes, from: nat, to: nat)
    requires HasBytes(p, at, s) && from <= to <= |s|
    ensures p[at + from..at + to] == s[from..to]
  {
    var a, b := p[at + from..at + to], s[from..to];
    forall i | 0 <= i < |a| ensures a[i] == b[i] {
      assert p[at..at + |s|][from + i] == p[at + from + i];
    }
  }

  lemma {:induction false} PadAt(p: Bytes, at: nat, pad: Bytes)
    requires at <= |p| && p[at..] == pad && forall i :: 0 <= i < |pad| ==> pad[i] == 0
    ensures forall i :: at <= i < |p| ==> p[i] == 0
  {
    forall i | at <= i < |p| ensures p[i] == 0 {
      assert p[i] == p[at..][i - at];
    }
  }

  lemma {:induction false} SlotAt(p: Bytes, values: seq<U64>, k: nat)
    requires k < |values| <= 3 && HasBytes(p, 2, Slots(values))
    ensures HasWord(p, 2 + 8 * k, values[k], 8)
    ensures forall i :: 2 + 8 * |values| <= i < 26 ==> p[i] == 0
  {
    hide Le, Zeros, ValuesBytes;
    var slots, n := Slots(values), 8 * |values|;
    ValueSlot(values, k);
    assert slots[..n] == ValuesBytes(values) && slots[n..] == Zeros((3 - |values|) * 8);
    assert slots[8 * k..8 * k + 8] == slots[..n][8 * k..8 * k + 8];
    SliceOf(p, 2, slots, 8 * k, 8 * k + 8);
    forall i | 2 + n <= i < 26 ensures p[i] == 0 {
      assert p[i] == slots[i - 2] == slots[n..][i - 2 - n];
    }
  }

  lemma {:induction false} ValueSlot(values: seq<U64>, k: nat)
    requires k < |values|
    ensures ValuesBytes(values)[8 * k..8 * k + 8] == Le(values[k], 8)
  {
    hide Le;
    if k < |values| - 1 {
      var front := values[..|values| - 1];
      ValueSlot(front, k);
      assert ValuesBytes(values)[8 * k..8 * k + 8] == ValuesBytes(front)[8 * k..8 * k + 8];
    }
  }

  /** A refusal says why in one byte, and nothing else says anything. */
  lemma {:induction false} OtherFields(m: Message)
    requires WellShaped(m) && !m.Hold?
    ensures var p := Payload(m);
      && |p| == 545 && (forall i :: 1 <= i < 545 ==> p[i] == 0)
      && p[0] == (if !m.HoldRefused? then 0 else
        match m.reason case AtBound => 1 case CannotDuplicate => 2 case BadHold => 3)
  {
    hide Zeros;
  }
}
