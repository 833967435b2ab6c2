/**
 The RPN machine shared by the compiler and the runtime: opcodes, the evaluation
 context, the flat result buffer and the arithmetic of machine values.

 Machine values are a type parameter `V`; `Arith<V>` names the operations the
 machine applies to them. Nothing is assumed about `bml`, `add` or `mul`, so each
 theorem holds for IEEE doubles with whatever rounding they have. The few facts
 about conversions between counters and values that the programs rely on are
 stated as predicates on `Arith`.
 */
module Machine {
  import opened Wrappers

  const U32_RANGE := 0x1_0000_0000

  /** The size of one opcode in memory. */
  const OP_BYTES := 12

  type U32 = x: int | 0 <= x < 0x1_0000_0000

  datatype Op =
    | One
    | Zero
    | Bml
    | Dup
    | Var(id: U32)
    | Const(id: U32)
    | VarIndexed(base: U32)
    | ContextVarIndexed(base: U32)
    | ContextConstIndexed(base: U32)
    | StoreResult(slot: U32)
    | Loop(count: U32, bodyLen: U32)
    | FAdd
    | FMul
    | Pick(depth: U32)
    | Drop
    | Swap
    | FMax

  datatype Arith<!V> = Arith(
    one: V,
    zero: V,
    nan: V,
    bml: (V, V) -> V,
    add: (V, V) -> V,
    mul: (V, V) -> V,
    max: (V, V) -> V,
    fromU32: U32 -> V,           // `iter as f64`
    castU32: V -> U32,           // the permissive, saturating `offset as u32`
    exactU32: V -> Option<U32>   // the exact offset accepted by `context_index`
  ) {
    /** A loop counter survives the trip through a machine value. */
    ghost predicate CountersSurvive() {
      forall k: U32 {:trigger fromU32(k)} :: castU32(fromU32(k)) == k && exactU32(fromU32(k)) == Some(k)
    }
  }

  /** `EvalContext`: variables and constants, NaN outside either slice. */
  datatype Context<V> = Context(inputs: seq<V>, weights: seq<V>)

  function GetVar<V>(m: Arith<V>, ctx: Context<V>, id: U32): V {
    if id < |ctx.inputs| then ctx.inputs[id] else m.nan
  }

  function GetConst<V>(m: Arith<V>, ctx: Context<V>, id: U32): V {
    if id < |ctx.weights| then ctx.weights[id] else m.nan
  }

  /** `context_index`: base + exact offset, rejected when it leaves u32. */
  function ContextIndex<V>(m: Arith<V>, base: U32, offset: V): Option<U32> {
    var k :- m.exactU32(offset);
    if base + k < U32_RANGE then Some(base + k) else None
  }

  /** The abstract value of a `ResultBuffer`: `slots` rows of `width` cells in one flat sequence. */
  datatype Buffer<V> = Buffer(data: seq<V>, width: nat, slots: nat) {
    predicate Valid() {
      |data| == slots * width
    }
  }

  /** `read_indexed`: an absolute address, NaN when it overflows u32 or the buffer. */
  function ReadIndexed<V>(m: Arith<V>, b: Buffer<V>, base: U32, offset: U32): V {
    if base + offset < U32_RANGE && base + offset < |b.data| then b.data[base + offset] else m.nan
  }

  /** `slot_index`: the flat address of a cell, None outside the buffer's shape. */
  function SlotIndex<V>(b: Buffer<V>, slot: U32, offset: U32): (r: Option<nat>)
    requires b.Valid()
    ensures r.Some? <==> slot < b.slots && offset < b.width
    ensures r.Some? ==> r.value == slot * b.width + offset < |b.data|
  {
    if slot < b.slots && offset < b.width then
      assert (slot + 1) * b.width <= b.slots * b.width;
      Some(slot * b.width + offset)
    else None
  }

  /** `write`: a slot write, ignored outside the buffer's shape. */
  function WriteSlot<V>(b: Buffer<V>, slot: U32, offset: U32, value: V): (r: Buffer<V>)
    requires b.Valid()
    ensures r.Valid() && r.width == b.width && r.slots == b.slots
  {
    match SlotIndex(b, slot, offset)
    case None => b
    case Some(k) => b.(data := b.data[k := value])
  }

  lemma SlotWrite<V>(buf: Buffer<V>, slot: U32, offset: U32, v: V)
    requires buf.Valid() && slot < buf.slots && offset < buf.width
    ensures slot * buf.width + offset < |buf.data|
    ensures WriteSlot(buf, slot, offset, v) == buf.(data := buf.data[slot * buf.width + offset := v])
  {
    assert SlotIndex(buf, slot, offset) == Some(slot * buf.width + offset);
  }

  /** `ResultBuffer`: storage that is written in place and never resized. */
  class ResultBuffer<V> {
    const data: array<V>
    const slotSize: nat
    const nSlots: nat

    ghost predicate Valid()
      reads data
    {
      View().Valid()
    }

    ghost function View(): Buffer<V>
      reads data
    {
      Buffer(data[..], slotSize, nSlots)
    }

    constructor (zero: V, nSlots: nat, slotSize: nat)
      ensures Valid() && fresh(data)
      ensures this.nSlots == nSlots && this.slotSize == slotSize
      ensures data[..] == seq(nSlots * slotSize, _ => zero)
    {
      this.nSlots := nSlots;
      this.slotSize := slotSize;
      data := new V[nSlots * slotSize](_ => zero);
    }

    method Read(m: Arith<V>, base: U32, offset: U32) returns (value: V)
      ensures value == ReadIndexed(m, View(), base, offset)
      ensures value == if base + offset < 0x1_0000_0000 && base + offset < data.Length then data[base + offset] else m.nan
    {
      if base + offset < U32_RANGE && base + offset < data.Length {
        value := data[base + offset];
      } else {
        value := m.nan;
      }
    }

    method Write(slot: U32, offset: U32, value: V)
      requires Valid()
      modifies data
      ensures Valid()
      ensures View() == WriteSlot(old(View()), slot, offset, value)
      ensures forall c :: 0 <= c < data.Length ==>
                data[c] == if slot < nSlots && offset < slotSize && c == slot * slotSize + offset then value else old(data[c])
    {
      if slot < nSlots && offset < slotSize {
        assert SlotIndex(View(), slot, offset) == Some(slot * slotSize + offset);
        data[slot * slotSize + offset] := value;
      }
    }
  }
}
