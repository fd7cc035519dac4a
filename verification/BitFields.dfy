/** Header fields that do not fill whole bytes: the loads and stores that src/evaluate.c turns them into. */
module BitFields {
  import opened Arith
  import opened PowersOfTwo
  import opened Bitwise

  const REG_BITS := 128   // NFT_REG_SIZE bytes

  function RoundUp(n: nat, d: nat): nat
    requires d > 0
  {
    (n + d - 1) / d * d
  }

  /**
   expr_offset_shift: how far the field is from the end of the bytes that are loaded, and
   how many bits have to be loaded in addition to the field's own bytes.
   */
  method ExprOffsetShift(len: nat, offset: nat) returns (shift: int, extra: nat)
    ensures 0 <= shift < 8 && (extra == 0 || extra == 8)
    ensures shift == RoundUp(len, 8) + extra - offset % 8 - len
  {
    var newOffset := offset % 8;
    var l := RoundUp(len, 8);
    shift := l - (newOffset + len);
    extra := 0;
    while shift < 0
      invariant shift == l + extra - newOffset - len && -8 < shift < 8
      invariant extra == 0 || (extra == 8 && shift >= 0)
      decreases 8 - shift
    {
      shift := shift + 8;
      extra := extra + 8;
    }
  }

  /** A load or store of whole bytes, and where in it the field is. */
  datatype Access = Access(byteOffset: nat, byteSize: nat, shift: nat) | TooWide

  /** The access covers the field, which ends `shift` bits before its end. */
  ghost predicate Locates(a: Access, offset: nat, len: nat) {
    a.Access? && a.byteOffset * 8 + a.byteSize * 8 - a.shift - len == offset
    && a.shift + len <= a.byteSize * 8 && a.byteSize * 8 <= REG_BITS
  }

  /**
   The offsets computed by stmt_evaluate_payload.  With a checksum to update, an odd number
   of bytes is widened by the byte before it or the byte after it, so as to start at an even offset.
   */
  method StoreAccess(offset: nat, len: nat, needCsum: bool) returns (a: Access)
    requires len > 0
    ensures a.Access? ==> Locates(a, offset, len)
    ensures var n := (offset % 8 + len + 7) / 8;
            && (a.TooWide? <==> n > 16)
            && (a.Access? ==>
                  if needCsum && n % 2 == 1 then a.byteSize == n + 1 && a.byteOffset == offset / 16 * 2
                  else a.byteSize == n && a.byteOffset == offset / 8)
  {
    var byteOffset := offset / 8;
    var shift, extra := ExprOffsetShift(len, offset);
    var byteSize := (len + extra + 7) / 8;
    Enough(len, extra, offset % 8, shift);
    if byteSize > 16 {
      return TooWide;
    }
    if needCsum && byteSize % 2 == 1 {
      byteSize := byteSize + 1;
      if byteOffset % 2 == 1 {
        byteOffset := byteOffset - 1;
      } else {
        shift := shift + 8;
      }
    }
    a := Access(byteOffset, byteSize, shift);
  }

  lemma Enough(len: nat, extra: nat, newOffset: nat, shift: int)
    requires newOffset < 8 && 0 <= shift < 8 && (extra == 0 || extra == 8)
             && shift == RoundUp(len, 8) + extra - newOffset - len
    ensures (len + extra + 7) / 8 * 8 == RoundUp(len, 8) + extra == newOffset + len + shift
    ensures (newOffset + len + 7) / 8 == (len + extra + 7) / 8
  {
  }

  // ----- packets

  /** The number that bits denote, the first one being the most significant. */
  ghost function Number(s: seq<bool>): nat {
    if s == [] then 0 else 2 * Number(s[..|s| - 1]) + if s[|s| - 1] then 1 else 0
  }

  /** The n low bits of x, most significant first. */
  ghost function BitString(x: nat, n: nat): (s: seq<bool>)
    ensures |s| == n
  {
    seq(n, k requires 0 <= k < n => Bit(x, n - 1 - k))
  }

  lemma {:induction false} NumberBit(s: seq<bool>, i: nat)
    ensures Bit(Number(s), i) == (i < |s| && s[|s| - 1 - i])
    decreases |s|
  {
    if s == [] {
      BitOfZero(i);
    } else if i > 0 {
      var t := s[..|s| - 1];
      NumberBit(t, i - 1);
      assert Number(s) / 2 == Number(t);
      assert i < |s| ==> t[|t| - 1 - (i - 1)] == s[|s| - 1 - i];
    }
  }

  /** What a load of n bits at bit position `at` gives. */
  ghost function Load(packet: seq<bool>, at: nat, n: nat): nat
    requires at + n <= |packet|
  {
    Number(packet[at..at + n])
  }

  /** The packet after a store of n bits. */
  ghost function Store(packet: seq<bool>, at: nat, n: nat, x: nat): (p: seq<bool>)
    requires at + n <= |packet|
    ensures |p| == |packet|
  {
    packet[..at] + BitString(x, n) + packet[at + n..]
  }

  /** The value stored: the loaded bits outside the field, and the new value inside it. */
  function Patched(old_: nat, val: nat, len: nat, shift: nat, masklen: nat): nat {
    var mask := Bits(Xor, FieldMask(len, shift), Pow2(masklen) - 1);
    Bits(Xor, Bits(And, old_, mask), val * Pow2(shift))
  }

  lemma PatchedBit(old_: nat, val: nat, len: nat, shift: nat, masklen: nat, i: nat)
    requires val < Pow2(len) && shift + len <= masklen && i < masklen
    ensures Bit(Patched(old_, val, len, shift, masklen), i) ==
            if shift <= i < shift + len then Bit(val, i - shift) else Bit(old_, i)
  {
    hide Bit, Bits, FieldMask, Pow2;
    var field, ones := FieldMask(len, shift), Pow2(masklen) - 1;
    var mask := Bits(Xor, field, ones);
    BitsBit(Xor, field, ones, i);
    FieldMaskBit(len, shift, i);
    OnesBit(masklen, i);
    BitsBit(And, old_, mask, i);
    BitsBit(Xor, Bits(And, old_, mask), val * Pow2(shift), i);
    ShiftedBit(val, shift, i);
    if i >= shift + len {
      HighBit(val, len, i - shift);
    }
  }

  /** The packet after the store that a payload statement becomes. */
  ghost function Written(packet: seq<bool>, a: Access, len: nat, val: nat): (p: seq<bool>)
    requires a.Access? && (a.byteOffset + a.byteSize) * 8 <= |packet|
    ensures |p| == |packet|
  {
    var at, n := a.byteOffset * 8, a.byteSize * 8;
    Store(packet, at, n, Patched(Load(packet, at, n), val, len, a.shift, n))
  }

  /** The store sets exactly the field and leaves every other bit of the packet alone. */
  lemma StoreSetsField(packet: seq<bool>, a: Access, offset: nat, len: nat, val: nat)
    requires Locates(a, offset, len) && (a.byteOffset + a.byteSize) * 8 <= |packet| && val < Pow2(len)
    ensures offset + len <= |packet|
    ensures forall k :: 0 <= k < |packet| ==>
              Written(packet, a, len, val)[k] ==
              if offset <= k < offset + len then BitString(val, len)[k - offset] else packet[k]
  {
    hide Bit, Bits, Patched, Number, Pow2;
    var at, n := a.byteOffset * 8, a.byteSize * 8;
    var old_ := Load(packet, at, n);
    var x := Patched(old_, val, len, a.shift, n);
    var p := Written(packet, a, len, val);
    forall k | 0 <= k < |packet|
      ensures p[k] == if offset <= k < offset + len then BitString(val, len)[k - offset] else packet[k]
    {
      if at <= k < at + n {
        var i := n - 1 - (k - at);
        assert p[k] == Bit(x, i);
        PatchedBit(old_, val, len, a.shift, n, i);
        NumberBit(packet[at..at + n], i);
      }
    }
  }

  /** What the relational side reads: mask, then shift right. */
  function Extracted(x: nat, len: nat, shift: nat): nat {
    Quotient(Bits(And, x, FieldMask(len, shift)), Pow2(shift))
  }

  lemma ExtractedBit(x: nat, len: nat, shift: nat, i: nat)
    ensures Bit(Extracted(x, len, shift), i) == (i < len && Bit(x, i + shift))
  {
    var m := Bits(And, x, FieldMask(len, shift));
    hide Bit, Bits, FieldMask, Pow2, Quotient;
    ShiftedDown(m, shift, i);
    BitsBit(And, x, FieldMask(len, shift), i + shift);
    FieldMaskBit(len, shift, i + shift);
  }

  /** Loading through the access gives the field's value. */
  lemma LoadGetsField(packet: seq<bool>, a: Access, offset: nat, len: nat)
    requires Locates(a, offset, len) && (a.byteOffset + a.byteSize) * 8 <= |packet|
    ensures offset + len <= |packet|
    ensures Extracted(Load(packet, a.byteOffset * 8, a.byteSize * 8), len, a.shift) == Load(packet, offset, len)
  {
    hide Bit, Number, Extracted;
    var at, n := a.byteOffset * 8, a.byteSize * 8;
    var x, y := Extracted(Load(packet, at, n), len, a.shift), Load(packet, offset, len);
    forall i: nat ensures Bit(x, i) == Bit(y, i) {
      ExtractedBit(Load(packet, at, n), len, a.shift, i);
      NumberBit(packet[at..at + n], i + a.shift);
      NumberBit(packet[offset..offset + len], i);
    }
    SameBits(x, y);
  }

  /** A field that was stored is loaded back as the value stored, whatever access either side chose. */
  lemma StoreThenLoad(packet: seq<bool>, a: Access, b: Access, offset: nat, len: nat, val: nat)
    requires Locates(a, offset, len) && (a.byteOffset + a.byteSize) * 8 <= |packet| && val < Pow2(len)
    requires Locates(b, offset, len) && (b.byteOffset + b.byteSize) * 8 <= |packet|
    ensures Extracted(Load(Written(packet, a, len, val), b.byteOffset * 8, b.byteSize * 8), len, b.shift) == val
  {
    hide Bit, Number, Extracted, Written, Pow2;
    var p := Written(packet, a, len, val);
    StoreSetsField(packet, a, offset, len, val);
    LoadGetsField(p, b, offset, len);
    var s := p[offset..offset + len];
    assert s == BitString(val, len);
    forall i: nat ensures Bit(Number(s), i) == Bit(val, i) {
      NumberBit(s, i);
      if i >= len {
        HighBit(val, len, i);
      }
    }
    SameBits(Number(s), val);
  }

  /** expr_evaluate_bits: the access for a load, the width of its mask, and its size in bits. */
  method LoadAccess(offset: nat, len: nat) returns (a: Access, masklen: nat)
    requires len > 0
    ensures masklen == len + (8 - (offset + len) % 8) % 8
    ensures a.TooWide? <==> masklen > 128
    ensures a.Access? ==> && Locates(a, offset, len) && masklen == len + a.shift
                          && a.byteOffset == offset / 8 && a.byteSize == (offset % 8 + len + 7) / 8
  {
    var shift, extra := ExprOffsetShift(len, offset);
    masklen := len + shift;
    Enough(len, extra, offset % 8, shift);
    if masklen > REG_BITS {
      return TooWide, masklen;
    }
    a := Access(offset / 8, (len + extra + 7) / 8, shift);
  }
}
