/** binop_transfer for right shifts: moving the shift from a header field to the constants it is compared with. */
module ShiftTransfer {
  import opened Arith
  import opened PowersOfTwo
  import opened Bitwise
  import opened BitFields

  /** A constant with its length in bits. */
  datatype Const = Const(v: nat, len: nat) {
    ghost predicate Valid() {
      v < Pow2(len) && len > 0
    }
  }

  /** A value or a range; as a set element, or as the key of a mapping, it is treated the same. */
  datatype Item = One(c: Const) | Span(lo: Const, hi: Const) {
    ghost predicate Valid() {
      match this
      case One(c) => c.Valid()
      case Span(lo, hi) => lo.Valid() && hi.Valid()
    }
  }

  datatype Rhs = Single(item: Item) | SetOf(items: seq<Item>) {
    ghost predicate Valid() {
      match this
      case Single(item) => item.Valid()
      case SetOf(items) => forall i :: i in items ==> i.Valid()
    }
  }

  datatype RelOp = Eq | Neq | Lt | Gt | Lte | Gte

  predicate InItem(y: nat, item: Item) {
    match item
    case One(c) => y == c.v
    case Span(lo, hi) => lo.v <= y <= hi.v
  }

  /** When a relational expression with this right-hand side holds of y. */
  predicate Holds(op: RelOp, y: nat, rhs: Rhs) {
    match op
    case Eq => if rhs.Single? then InItem(y, rhs.item) else exists i :: i in rhs.items && InItem(y, i)
    case Neq => if rhs.Single? then !InItem(y, rhs.item) else forall i :: i in rhs.items ==> !InItem(y, i)
    case Lt => rhs.Single? && rhs.item.One? && y < rhs.item.c.v
    case Gt => rhs.Single? && rhs.item.One? && y > rhs.item.c.v
    case Lte => rhs.Single? && rhs.item.One? && y <= rhs.item.c.v
    case Gte => rhs.Single? && rhs.item.One? && y >= rhs.item.c.v
  }

  /** The lengths that the evaluation context carries. */
  class Context {
    var len: nat       // ectx.len
    var stmtLen: nat

    constructor (len: nat, stmtLen: nat)
      ensures this.len == len && this.stmtLen == stmtLen
    {
      this.len, this.stmtLen := len, stmtLen;
    }
  }

  /** A constant after evaluation in a context of the given length, shifted left. */
  ghost function Moved(c: Const, n: nat, oplen: nat): Const {
    MulPos(c.v, Pow2(n));
    Const(c.v * Pow2(n), oplen)
  }

  ghost function MovedItem(item: Item, n: nat, oplen: nat): Item {
    match item
    case One(c) => One(Moved(c, n, oplen))
    case Span(lo, hi) => Span(Moved(lo, n, oplen), Moved(hi, n, oplen))
  }

  /** The context is wide enough for every constant, or for every constant shifted by n. */
  ghost predicate WideItem(len: nat, n: nat, item: Item) {
    match item
    case One(c) => len >= c.len + n
    case Span(lo, hi) => len >= lo.len + n && len >= hi.len + n
  }

  ghost predicate Wide(len: nat, n: nat, rhs: Rhs) {
    match rhs
    case Single(item) => WideItem(len, n, item)
    case SetOf(items) => forall i :: i in items ==> WideItem(len, n, i)
  }

  /**
   binop_can_transfer of a right shift by n for one constant: the context is widened if the
   shifted value would not fit.
   */
  method CanTransferConst(ctx: Context, n: nat, c: Const)
    requires ctx.len >= c.len
    modifies ctx`len
    ensures ctx.len == (if old(ctx.len) < c.len + n then old(ctx.len) + n else old(ctx.len)) && ctx.len >= c.len + n
  {
    if ctx.len < c.len + n {
      ctx.len := ctx.len + n;
    }
  }

  method CanTransferItem(ctx: Context, n: nat, item: Item)
    requires WideItem(ctx.len, 0, item)
    modifies ctx`len
    ensures ctx.len == (if WideItem(old(ctx.len), n, item) then old(ctx.len) else old(ctx.len) + n)
    ensures WideItem(ctx.len, n, item)
  {
    match item
    case One(c) => CanTransferConst(ctx, n, c);
    case Span(lo, hi) =>
      CanTransferConst(ctx, n, lo);
      CanTransferConst(ctx, n, hi);
  }

  datatype Shifted = Ok(c: Const) | Undefined

  /** A constant shifted left: expr_evaluate_shift and constant_binop_simplify, in the length of the context. */
  method ShiftConst(ctx: Context, n: nat, c: Const) returns (r: Shifted)
    requires c.Valid() && ctx.len >= c.len + n
    ensures r == Ok(Moved(c, n, if ctx.stmtLen > ctx.len then ctx.stmtLen else ctx.len))
    ensures r.Ok? && r.c.v == c.v * Pow2(n) && r.c.len == if ctx.stmtLen > ctx.len then ctx.stmtLen else ctx.len
  {
    hide Pow2, Bits;
    var oplen := if ctx.stmtLen > ctx.len then ctx.stmtLen else ctx.len;
    if n >= oplen {
      return Undefined;
    }
    NothingCut(c.v, c.len, n, oplen);
    r := Ok(Const(Bits(And, c.v * Pow2(n), Pow2(oplen) - 1), oplen));
  }

  /** Shifting into a length that has room for the shifted value cuts nothing. */
  lemma NothingCut(v: nat, len: nat, n: nat, oplen: nat)
    requires v < Pow2(len) && len + n <= oplen
    ensures 0 <= v * Pow2(n) < Pow2(oplen) && Bits(And, v * Pow2(n), Pow2(oplen) - 1) == v * Pow2(n)
  {
    hide Bits, Bit;
    Pow2Add(len, n);
    Pow2Mono(len + n, oplen);
    MulPos(v, Pow2(n));
    MulLt(v, Pow2(len), Pow2(n));
    AndOnes(v * Pow2(n), oplen);
  }

  lemma MulLt(a: nat, b: nat, c: nat)
    requires a < b && c > 0
    ensures a * c < b * c
  {
    MulLe(a + 1, b, c);
  }

  ghost function OpLen(ctx: Context): nat
    reads ctx
  {
    if ctx.stmtLen > ctx.len then ctx.stmtLen else ctx.len
  }

  /** binop_transfer_one */
  method TransferItem(ctx: Context, n: nat, item: Item) returns (ok: bool, r: Item)
    requires item.Valid() && WideItem(ctx.len, n, item)
    ensures ok && r == MovedItem(item, n, OpLen(ctx))
  {
    match item
    case One(c) =>
      var a := ShiftConst(ctx, n, c);
      if a.Undefined? {
        return false, item;
      }
      return true, One(a.c);
    case Span(lo, hi) =>
      var a := ShiftConst(ctx, n, lo);
      if a.Undefined? {
        return false, item;
      }
      var b := ShiftConst(ctx, n, hi);
      if b.Undefined? {
        return false, item;
      }
      return true, Span(a.c, b.c);
  }

  ghost function MovedRhs(rhs: Rhs, n: nat, oplen: nat): Rhs {
    match rhs
    case Single(item) => Single(MovedItem(item, n, oplen))
    case SetOf(items) => SetOf(seq(|items|, i requires 0 <= i < |items| => MovedItem(items[i], n, oplen)))
  }

  /** __binop_transfer: first every element is checked, then each is replaced in its place. */
  method Transfer(ctx: Context, n: nat, rhs: Rhs) returns (ok: bool, r: Rhs)
    requires rhs.Valid() && Wide(ctx.len, 0, rhs)
    modifies ctx`len
    ensures ok && r == MovedRhs(rhs, n, OpLen(ctx)) && Wide(ctx.len, n, rhs)
    ensures ctx.len == if Wide(old(ctx.len), n, rhs) then old(ctx.len) else old(ctx.len) + n
  {
    hide MovedItem, WideItem;
    match rhs
    case Single(item) =>
      CanTransferItem(ctx, n, item);
      var moved;
      ok, moved := TransferItem(ctx, n, item);
      return ok, Single(moved);
    case SetOf(items) =>
      var i := 0;
      while i < |items|
        invariant 0 <= i <= |items|
        invariant ctx.len == if forall k :: 0 <= k < i ==> WideItem(old(ctx.len), n, items[k]) then old(ctx.len)
                             else old(ctx.len) + n
        invariant forall k :: 0 <= k < i ==> WideItem(ctx.len, n, items[k])
      {
        assert items[i] in items;
        ghost var before := ctx.len;
        WiderItem(old(ctx.len), before, 0, items[i]);
        EnoughOnce(old(ctx.len), n, items[i]);
        CanTransferItem(ctx, n, items[i]);
        forall k | 0 <= k < i ensures WideItem(ctx.len, n, items[k]) {
          WiderItem(before, ctx.len, n, items[k]);
        }
        i := i + 1;
      }
      var s := [];
      i := 0;
      ghost var widened := ctx.len;
      while i < |items|
        invariant 0 <= i <= |items| && |s| == i && ctx.len == widened
        invariant forall k :: 0 <= k < |items| ==> WideItem(ctx.len, n, items[k])
        invariant forall k :: 0 <= k < i ==> s[k] == MovedItem(items[k], n, OpLen(ctx))
      {
        assert items[i] in items;
        var moved;
        ok, moved := TransferItem(ctx, n, items[i]);
        if !ok {
          return false, rhs;
        }
        s := s + [moved];
        i := i + 1;
      }
      assert s == MovedRhs(rhs, n, OpLen(ctx)).items;
      assert Wide(old(ctx.len), n, rhs) <==> forall k :: 0 <= k < |items| ==> WideItem(old(ctx.len), n, items[k]);
      return true, SetOf(s);
  }

  /** Widening by n once is enough for every constant that the context had room for. */
  lemma EnoughOnce(len: nat, n: nat, item: Item)
    requires WideItem(len, 0, item)
    ensures WideItem(len + n, n, item)
  {
  }

  lemma WiderItem(a: nat, b: nat, n: nat, item: Item)
    requires a <= b && WideItem(a, n, item)
    ensures WideItem(b, n, item)
  {
  }

  /** binop_transfer_handle_lhs: the mask that takes the place of the shift. */
  function LeftMask(width: nat, n: nat): nat {
    FieldMask(width, n)
  }

  /** Masking out what the shift would have shifted out. */
  lemma MaskedIsShifted(x: nat, width: nat, n: nat)
    requires x < Pow2(width)
    ensures Bits(And, x, LeftMask(width, n)) == Quotient(x, Pow2(n)) * Pow2(n)
  {
    Pow2Mono(width, width + n);
    ClearLow(x, width, n);
  }

  lemma Monotonic(y: nat, c: nat, p: nat)
    requires p > 0
    ensures (y * p <= c * p <==> y <= c) && (y * p < c * p <==> y < c) && (y * p == c * p <==> y == c)
  {
    if y < c {
      MulLt(y, c, p);
    } else if c < y {
      MulLt(c, y, p);
    }
  }

  lemma InMoved(y: nat, item: Item, n: nat, oplen: nat)
    ensures 0 <= y * Pow2(n) && InItem(y * Pow2(n), MovedItem(item, n, oplen)) == InItem(y, item)
  {
    hide Pow2;
    MulPos(y, Pow2(n));
    match item
    case One(c) => Monotonic(y, c.v, Pow2(n));
    case Span(lo, hi) =>
      Monotonic(lo.v, y, Pow2(n));
      Monotonic(y, hi.v, Pow2(n));
  }

  /**
   The transfer keeps the meaning: for every x of the field's width and every operator,
   the shifted field compares with the constants as the masked field does with the shifted constants.
   */
  lemma TransferKeepsMeaning(op: RelOp, x: nat, width: nat, n: nat, rhs: Rhs, oplen: nat)
    requires x < Pow2(width)
    ensures Holds(op, Quotient(x, Pow2(n)), rhs) <==>
              Holds(op, Bits(And, x, LeftMask(width, n)), MovedRhs(rhs, n, oplen))
  {
    hide Bits, Pow2, Quotient, LeftMask, MovedItem, InItem;
    MaskedIsShifted(x, width, n);
    var y := Quotient(x, Pow2(n));
    match rhs
    case Single(item) =>
      InMoved(y, item, n, oplen);
      if item.One? {
        OneMoved(item, n, oplen);
        Monotonic(y, item.c.v, Pow2(n));
        Monotonic(item.c.v, y, Pow2(n));
      } else {
        SpanMoved(item, n, oplen);
      }
    case SetOf(items) =>
      var moved := MovedRhs(rhs, n, oplen).items;
      forall i | i in items ensures InItem(y * Pow2(n), MovedItem(i, n, oplen)) == InItem(y, i) {
        InMoved(y, i, n, oplen);
      }
      MulPos(y, Pow2(n));
      forall i | i in items ensures MovedItem(i, n, oplen) in moved {
        var k :| 0 <= k < |items| && items[k] == i;
        assert moved[k] == MovedItem(i, n, oplen);
      }
      forall m | m in moved ensures exists i :: i in items && m == MovedItem(i, n, oplen) {
        var k :| 0 <= k < |moved| && moved[k] == m;
        assert items[k] in items;
      }
  }

  lemma OneMoved(item: Item, n: nat, oplen: nat)
    requires item.One?
    ensures MovedItem(item, n, oplen).One? && MovedItem(item, n, oplen).c.v == item.c.v * Pow2(n)
  {
  }

  lemma SpanMoved(item: Item, n: nat, oplen: nat)
    requires item.Span?
    ensures MovedItem(item, n, oplen).Span?
  {
  }
}
