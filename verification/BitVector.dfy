/** The packed bit vector of src/bitvec.rs. */
module BitVector {
  import opened Wrappers
  import opened Words

  /**
   The two fields of a bit vector as a value.  Equality of this datatype is the
   derived `PartialEq` of the source: word by word, then the counter.
   */
  datatype Packed = Packed(storage: seq<u32>, lenOfLast: nat) {

    /** There is a last word, its counter is in range, and its unused high digits are zero. */
    ghost predicate Wf() {
      && |storage| >= 1
      && lenOfLast <= WORD_BITS
      && (|storage| > 1 ==> lenOfLast >= 1)
      && storage[|storage| - 1] < Pow2(lenOfLast)
    }

    function Len(): nat
      requires |storage| >= 1
    {
      WORD_BITS * (|storage| - 1) + lenOfLast
    }

    /** Bit i, in word i / 32. */
    ghost predicate Digit(i: nat)
      requires i / WORD_BITS < |storage|
    {
      Bit(storage[i / WORD_BITS], i % WORD_BITS)
    }

    /** The boolean sequence that the words stand for. */
    ghost function Bits(): (bits: Bits)
      requires Wf()
      ensures |bits| == Len()
    {
      assert Reads(seq(Len(), i requires 0 <= i < Len() => Digit(i)));
      var bits: Bits :| Reads(bits);
      bits
    }

    ghost predicate Reads(bits: Bits)
      requires Wf()
    {
      |bits| == Len() && forall i {:trigger Digit(i)} :: 0 <= i < Len() ==> bits[i] == Digit(i)
    }

    /** `is_empty` looks at the counter alone. */
    predicate IsEmpty()
      ensures Wf() ==> (IsEmpty() <==> Bits() == [])
    {
      lenOfLast == 0
    }

    function Get(index: nat): (r: Option<bool>)
      requires |storage| >= 1
      ensures Wf() ==> r == if index < Len() then Some(Bits()[index]) else None
    {
      if index >= Len() || index / WORD_BITS >= |storage| then None
      else
        var element := storage[index / WORD_BITS];
        var bit := ShiftOne(index % WORD_BITS);
        MaskTestsBit(element, index % WORD_BITS);
        assert Digit(index) == Bit(element, index % WORD_BITS);
        Some(And(element, bit) != 0)
    }
  }

  /** A bit vector that nothing mutates any more: a queue element, a borrowed argument, a payload. */
  type BitVal = p: Packed | p.Wf() witness Packed([0], 0)

  /** A bit vector under construction. */
  class BitVec {
    var storage: seq<u32>
    var lenOfLast: nat

    ghost predicate Valid()
      reads this
    {
      Value().Wf()
    }

    function Value(): Packed
      reads this
    {
      Packed(storage, lenOfLast)
    }

    ghost function Bits(): Bits
      reads this
      requires Valid()
    {
      Value().Bits()
    }

    constructor ()
      ensures Valid() && Bits() == []
    {
      storage, lenOfLast := [0], 0;
    }

    constructor FromSlice(slice: seq<bool>)
      ensures Valid() && Bits() == slice
    {
      storage, lenOfLast := [0], 0;
      new;
      for i := 0 to |slice|
        invariant Valid() && Bits() == slice[..i]
      {
        Push(slice[i]);
      }
    }

    method Push(bit: bool)
      requires Valid()
      modifies this
      ensures Valid() && Bits() == old(Bits()) + [bit]
    {
      PushedBits(Value(), bit);
      var last := |storage| - 1;
      if lenOfLast == WORD_BITS {
        storage := storage + [if bit then 1 else 0];
        lenOfLast := 1;
      } else if bit {
        var newBit := ShiftOne(lenOfLast);
        SetNextDigit(storage[last], lenOfLast);
        storage := storage[last := Or(storage[last], newBit)];
        lenOfLast := lenOfLast + 1;
      } else {
        lenOfLast := lenOfLast + 1;
      }
    }

    method Append(other: BitVal)
      requires Valid()
      modifies this
      ensures Valid() && Bits() == old(Bits()) + other.Bits()
    {
      ghost var before, all := Bits(), other.Bits();
      var counter := 0;
      var next := other.Get(counter);
      while next.Some?
        invariant Valid() && counter <= |all|
        invariant next == if counter < |all| then Some(all[counter]) else None
        invariant Bits() == before + all[..counter]
        decreases |all| - counter
      {
        Push(next.value);
        assert all[..counter + 1] == all[..counter] + [all[counter]];
        counter := counter + 1;
        next := other.Get(counter);
      }
    }
  }

  /** The bits with indices in [start, end), or None when one of them is missing. */
  ghost function Slice(all: Bits, start: nat, end: nat): Option<Bits> {
    if start >= end then Some([])
    else if end <= |all| then Some(all[start..end])
    else None
  }

  method Range(v: BitVal, start: nat, end: nat) returns (r: Option<BitVal>)
    ensures r.Some? <==> Slice(v.Bits(), start, end).Some?
    ensures r.Some? ==> r.value.Bits() == Slice(v.Bits(), start, end).value
    ensures r.Some? <==> start >= end || end <= |v.Bits()|
    ensures r.Some? ==> r.value.Bits() == if start < end then v.Bits()[start..end] else []
  {
    ghost var all := v.Bits();
    var bitvec := new BitVec();
    var idx := start;
    while idx < end
      invariant fresh(bitvec) && bitvec.Valid()
      invariant start <= idx && (idx == start || (idx <= end && idx <= |all|))
      invariant Slice(all, start, idx) == Some(bitvec.Bits())
    {
      var bit := v.Get(idx);
      if bit.None? {
        return None;
      }
      bitvec.Push(bit.value);
      SliceNext(all, start, idx);
      idx := idx + 1;
    }
    return Some(bitvec.Value());
  }

  lemma SliceNext(all: Bits, start: nat, idx: nat)
    requires start <= idx < |all|
    ensures Slice(all, start, idx + 1) == Some(Slice(all, start, idx).value + [all[idx]])
  {
    assert all[start..idx + 1] == all[start..idx] + [all[idx]];
  }

  // ----- One push on the packed words

  lemma SetNextDigit(word: u32, n: nat)
    requires n < WORD_BITS && word < Pow2(n)
    ensures Or(word, Pow2(n)) < Pow2(n + 1) <= WORD_LIMIT
    ensures forall i: nat :: Bit(Or(word, Pow2(n)), i) <==> Bit(word, i) || i == n
  {
    Pow2Grows(n, n + 1);
    Pow2Grows(n + 1, WORD_BITS);
    Pow2At31();
    OrBound(word, Pow2(n), n + 1);
    forall i: nat
      ensures Bit(Or(word, Pow2(n)), i) <==> Bit(word, i) || i == n
    {
      BitOfOr(word, Pow2(n), i);
      BitOfPow2(n, i);
    }
  }

  /** The words after a push. */
  ghost function Pushed(p: BitVal, bit: bool): Packed {
    var last := |p.storage| - 1;
    if p.lenOfLast == WORD_BITS then
      Packed(p.storage + [if bit then 1 else 0], 1)
    else if bit then
      SetNextDigit(p.storage[last], p.lenOfLast);
      Packed(p.storage[last := Or(p.storage[last], ShiftOne(p.lenOfLast))], p.lenOfLast + 1)
    else
      Packed(p.storage, p.lenOfLast + 1)
  }

  lemma PushedBits(p: BitVal, bit: bool)
    ensures Pushed(p, bit).Wf() && Pushed(p, bit).Bits() == p.Bits() + [bit]
  {
    var q := Pushed(p, bit);
    PushedWf(p, bit);
    forall i: nat | i < q.Len()
      ensures q.Bits()[i] == (p.Bits() + [bit])[i]
    {
      PushedDigit(p, bit, i);
      assert p.Reads(p.Bits()) && q.Reads(q.Bits());
    }
  }

  lemma PushedDigit(p: BitVal, bit: bool, i: nat)
    requires i <= p.Len() && Pushed(p, bit).Wf()
    ensures Pushed(p, bit).Digit(i) == if i == p.Len() then bit else p.Digit(i)
  {
    var q := Pushed(p, bit);
    var last := |p.storage| - 1;
    if p.lenOfLast == WORD_BITS {
    } else if bit {
      SetNextDigit(p.storage[last], p.lenOfLast);
      var d := i % WORD_BITS;
      assert Bit(q.storage[last], d) <==> Bit(p.storage[last], d) || d == p.lenOfLast;
    } else if i == p.Len() {
      BitAboveBound(p.storage[last], p.lenOfLast, p.lenOfLast);
    }
  }

  lemma PushedWf(p: BitVal, bit: bool)
    ensures Pushed(p, bit).Wf() && Pushed(p, bit).Len() == p.Len() + 1
  {
    if p.lenOfLast == WORD_BITS {
      assert Pow2(1) == 2;
    } else if bit {
      SetNextDigit(p.storage[|p.storage| - 1], p.lenOfLast);
    } else {
      Pow2Grows(p.lenOfLast, p.lenOfLast + 1);
    }
  }

  // ----- Canonical representation

  /** Structural equality is equality of the bit sequences. */
  lemma Canonical(v: BitVal, w: BitVal)
    ensures v == w <==> v.Bits() == w.Bits()
  {
    if v.Bits() == w.Bits() {
      assert v.Len() == |v.Bits()| == |w.Bits()| == w.Len();
      assert |v.storage| == |w.storage| && v.lenOfLast == w.lenOfLast;
      forall k | 0 <= k < |v.storage|
        ensures v.storage[k] == w.storage[k]
      {
        SameWord(v, w, k);
      }
    }
  }

  lemma SameWord(v: BitVal, w: BitVal, k: nat)
    requires |v.storage| == |w.storage| && v.lenOfLast == w.lenOfLast
    requires v.Bits() == w.Bits() && k < |v.storage|
    ensures v.storage[k] == w.storage[k]
  {
    var used := if k == |v.storage| - 1 then v.lenOfLast else WORD_BITS;
    Pow2At31();
    forall i: nat | i < used
      ensures Bit(v.storage[k], i) <==> Bit(w.storage[k], i)
    {
      var index := WORD_BITS * k + i;
      assert index / WORD_BITS == k && index % WORD_BITS == i;
      assert v.Digit(index) == v.Bits()[index] == w.Bits()[index] == w.Digit(index);
    }
    WordsEqual(v.storage[k], w.storage[k], used);
  }

  /**
   Without the zero digits above the counter equality would not be bit equality: one stray
   digit gives a vector that reads the same everywhere and still differs.
   */
  lemma StrayDigitBreaksEquality(v: BitVal) returns (stray: Packed)
    requires v.lenOfLast < WORD_BITS
    ensures stray != v && stray.lenOfLast == v.lenOfLast && |stray.storage| == |v.storage|
    ensures forall i: nat :: stray.Get(i) == v.Get(i)
  {
    var last := |v.storage| - 1;
    SetNextDigit(v.storage[last], v.lenOfLast);
    stray := Packed(v.storage[last := Or(v.storage[last], Pow2(v.lenOfLast))], v.lenOfLast);
    BitAboveBound(v.storage[last], v.lenOfLast, v.lenOfLast);
    assert Bit(stray.storage[last], v.lenOfLast);
    forall i: nat
      ensures stray.Get(i) == v.Get(i)
    {
      if i < v.Len() {
        MaskTestsBit(stray.storage[i / WORD_BITS], i % WORD_BITS);
        MaskTestsBit(v.storage[i / WORD_BITS], i % WORD_BITS);
        var d := i % WORD_BITS;
        assert i / WORD_BITS == last ==> (Bit(stray.storage[last], d) <==> Bit(v.storage[last], d));
      }
    }
  }

  /** The number of words is fixed by the number of bits. */
  lemma WordCount(v: BitVal)
    ensures |v.storage| == if v.Len() == 0 then 1 else (v.Len() + 31) / 32
  {
  }

  /** The packed vector of a bit sequence; there is one, and `Canonical` makes it the only one. */
  ghost function Pack(bits: Bits): (v: BitVal)
    ensures v.Bits() == bits
  {
    PackExists(bits);
    var v: BitVal :| v.Bits() == bits;
    v
  }

  lemma {:induction false} PackExists(bits: Bits)
    ensures exists v: BitVal :: v.Bits() == bits
  {
    var v := Packed([0], 0);
    assert v.Bits() == [];
    if bits == [] {
    } else {
      PackExists(bits[..|bits| - 1]);
      var init: BitVal :| init.Bits() == bits[..|bits| - 1];
      PushedBits(init, bits[|bits| - 1]);
      v := Pushed(init, bits[|bits| - 1]);
    }
    var w: BitVal := v;
    assert w.Bits() == bits;
  }

  lemma PackBits(v: BitVal)
    ensures Pack(v.Bits()) == v
  {
    Canonical(Pack(v.Bits()), v);
  }
}
