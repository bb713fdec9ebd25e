/** `compress` and `decompress` of src/bitvec.rs on packed vectors, proved against RunLength. */
module Codec {
  import opened Wrappers
  import opened Words
  import opened BitVector
  import RunLength

  /** A compressed queue of equally long bit vectors. */
  datatype CompressedBitVec = CompressedBitVec(bits: BitVal, elementSize: nat)

  ghost function Elements(es: seq<BitVal>): (bs: seq<Bits>)
    ensures |bs| == |es|
  {
    if es == [] then [] else [es[0].Bits()] + Elements(es[1..])
  }

  ghost function PackAll(bs: seq<Bits>): (es: seq<BitVal>)
    ensures |es| == |bs|
  {
    if bs == [] then [] else [Pack(bs[0])] + PackAll(bs[1..])
  }

  lemma {:induction false} ElementAt(es: seq<BitVal>, i: nat)
    requires i < |es|
    ensures Elements(es)[i] == es[i].Bits()
  {
    if i == 0 {
    } else {
      ElementAt(es[1..], i - 1);
    }
  }

  lemma {:induction false} ElementsSnoc(es: seq<BitVal>, last: BitVal)
    ensures Elements(es + [last]) == Elements(es) + [last.Bits()]
  {
    if es == [] {
      assert es + [last] == [last];
    } else {
      assert (es + [last])[1..] == es[1..] + [last];
      ElementsSnoc(es[1..], last);
    }
  }

  lemma {:induction false} ElementsOfPackAll(bs: seq<Bits>)
    ensures Elements(PackAll(bs)) == bs
  {
    if bs == [] {
    } else {
      assert PackAll(bs)[1..] == PackAll(bs[1..]);
      ElementsOfPackAll(bs[1..]);
    }
  }

  lemma {:induction false} PackAllOfElements(es: seq<BitVal>)
    ensures PackAll(Elements(es)) == es
  {
    if es == [] {
    } else {
      assert Elements(es)[1..] == Elements(es[1..]);
      PackAllOfElements(es[1..]);
      PackBits(es[0]);
    }
  }

  lemma {:induction false} UniformElements(elementSize: nat, es: seq<BitVal>)
    ensures RunLength.Uniform(elementSize, Elements(es)) <==> forall k :: 0 <= k < |es| ==> es[k].Len() == elementSize
  {
    forall k | 0 <= k < |es|
      ensures |Elements(es)[k]| == es[k].Len()
    {
      ElementAt(es, k);
    }
  }

  ghost predicate SameLengths(es: seq<BitVal>) {
    forall i, j :: 0 <= i < |es| && 0 <= j < |es| ==> es[i].Len() == es[j].Len()
  }

  /** The payload prints tokens that stand for the elements. */
  ghost predicate Denotes(c: CompressedBitVec, es: seq<BitVal>) {
    RunLength.Means(c.elementSize, c.bits.Bits(), Elements(es))
  }

  /** The payload prints tokens at all. */
  ghost predicate Readable(c: CompressedBitVec) {
    RunLength.Decodable(c.elementSize, c.bits.Bits())
  }

  // ----- Compression

  /** What `compress` yields: None unless every element has the given size. */
  ghost function CompressOf(elementSize: nat, es: seq<BitVal>): Option<BitVal> {
    if RunLength.Uniform(elementSize, Elements(es)) then Some(Pack(RunLength.Encode(None, Elements(es)))) else None
  }

  /** The payload so far: an element adds a 0-bit when it repeats its predecessor word for word, a literal otherwise. */
  ghost function Payload(es: seq<BitVal>): Bits {
    if es == [] then []
    else
      var init, last := es[..|es| - 1], es[|es| - 1];
      if init != [] && last == init[|init| - 1] then Payload(init) + [false]
      else Payload(init) + [true] + last.Bits()
  }

  lemma EncodeOneMore(init: seq<BitVal>, last: BitVal)
    ensures RunLength.LastOr(None, Elements(init)) == Some(last.Bits()) <==> init != [] && last == init[|init| - 1]
    ensures RunLength.Encode(None, Elements(init + [last]))
         == RunLength.Encode(None, Elements(init))
          + if init != [] && last == init[|init| - 1] then [false] else [true] + last.Bits()
  {
    ElementsSnoc(init, last);
    RunLength.EncodeSnoc(Elements(init), last.Bits());
    if init != [] {
      ElementAt(init, |init| - 1);
      Canonical(last, init[|init| - 1]);
    }
  }

  lemma {:induction false} PayloadIsEncode(es: seq<BitVal>)
    ensures Payload(es) == RunLength.Encode(None, Elements(es))
  {
    if es == [] {
    } else {
      var init, last := es[..|es| - 1], es[|es| - 1];
      PayloadIsEncode(init);
      assert es == init + [last];
      EncodeOneMore(init, last);
    }
  }

  lemma CompressRefused(elementSize: nat, es: seq<BitVal>, i: nat)
    requires i < |es| && es[i].Len() != elementSize
    ensures CompressOf(elementSize, es) == None
  {
    UniformElements(elementSize, es);
  }

  lemma CompressAccepted(elementSize: nat, es: seq<BitVal>, payload: BitVal)
    requires forall k :: 0 <= k < |es| ==> es[k].Len() == elementSize
    requires payload.Bits() == Payload(es)
    ensures CompressOf(elementSize, es) == Some(payload)
  {
    UniformElements(elementSize, es);
    PayloadIsEncode(es);
    PackBits(payload);
  }

  method Compress(elementSize: nat, es: seq<BitVal>) returns (r: Option<BitVal>)
    ensures r == CompressOf(elementSize, es)
    ensures r.Some? <==> forall k :: 0 <= k < |es| ==> es[k].Len() == elementSize
    ensures r.Some? ==> r.value.Bits() == Payload(es)
  {
    var previous: Option<BitVal> := None;
    var payload := new BitVec();
    for i := 0 to |es|
      invariant fresh(payload) && payload.Valid() && payload.Bits() == Payload(es[..i])
      invariant forall k :: 0 <= k < i ==> es[k].Len() == elementSize
      invariant previous == if i == 0 then None else Some(es[i - 1])
    {
      var element := es[i];
      assert es[..i + 1][..i] == es[..i];
      if element.Len() != elementSize {
        CompressRefused(elementSize, es, i);
        return None;
      }
      if previous.None? || element != previous.value {
        payload.Push(true);
        payload.Append(element);
        previous := Some(element);
      } else {
        payload.Push(false);
      }
    }
    assert es[..|es|] == es;
    CompressAccepted(elementSize, es, payload.Value());
    return Some(payload.Value());
  }

  /** The element size is the length of the first element, or 0 for an empty queue. */
  ghost function CompressVecOf(es: seq<BitVal>): Option<CompressedBitVec> {
    var elementSize := if es == [] then 0 else es[0].Len();
    match CompressOf(elementSize, es)
    case None => None
    case Some(bits) => Some(CompressedBitVec(bits, elementSize))
  }

  method CompressVec(es: seq<BitVal>) returns (r: Option<CompressedBitVec>)
    ensures r == CompressVecOf(es)
    ensures r.Some? <==> SameLengths(es)
    ensures r.Some? ==> Denotes(r.value, es) && r.value.elementSize == if es == [] then 0 else es[0].Len()
    ensures r.Some? ==> forall c: CompressedBitVec ::
              c.elementSize == r.value.elementSize && Denotes(c, es) ==> r.value.bits.Len() <= c.bits.Len()
  {
    CompressMeaning(es);
    var elementSize := if es == [] then 0 else es[0].Len();
    var bits := Compress(elementSize, es);
    if bits.None? {
      return None;
    }
    return Some(CompressedBitVec(bits.value, elementSize));
  }

  // ----- Decompression

  ghost function DecompressOf(elementSize: nat, payload: BitVal): Option<seq<BitVal>> {
    PackAllOption(RunLength.Decode(elementSize, None, payload.Bits()))
  }

  ghost function PackAllOption(bs: Option<seq<Bits>>): Option<seq<BitVal>> {
    match bs
    case None => None
    case Some(elements) => Some(PackAll(elements))
  }

  ghost function BitsOption(v: Option<BitVal>): Option<Bits> {
    match v
    case None => None
    case Some(w) => Some(w.Bits())
  }

  /** The loop of `decompress` from index idx on. */
  ghost function DecodeFrom(elementSize: nat, payload: BitVal, idx: nat, previous: Option<BitVal>): Option<seq<BitVal>>
    decreases payload.Len() - idx
  {
    if idx >= payload.Len() then Some([])
    else if payload.Get(idx).value then
      match Slice(payload.Bits(), idx + 1, idx + elementSize + 1)
      case None => None
      case Some(bits) =>
        RunLength.Prepend([Pack(bits)], DecodeFrom(elementSize, payload, idx + elementSize + 1, Some(Pack(bits))))
    else
      match previous
      case None => None
      case Some(element) => RunLength.Prepend([element], DecodeFrom(elementSize, payload, idx + 1, previous))
  }

  lemma {:induction false} DecodeFromIsDecode(elementSize: nat, payload: BitVal, idx: nat, previous: Option<BitVal>)
    requires idx <= payload.Len()
    ensures DecodeFrom(elementSize, payload, idx, previous)
         == PackAllOption(RunLength.Decode(elementSize, BitsOption(previous), payload.Bits()[idx..]))
    decreases payload.Len() - idx
  {
    var p := payload.Bits();
    var rest := p[idx..];
    if idx < payload.Len() {
      if rest[0] {
        if idx + elementSize + 1 <= |p| {
          var bits := p[idx + 1..idx + elementSize + 1];
          assert rest == [true] + bits + p[idx + elementSize + 1..];
          RunLength.DecodeLiteral(BitsOption(previous), bits, p[idx + elementSize + 1..]);
          DecodeFromIsDecode(elementSize, payload, idx + elementSize + 1, Some(Pack(bits)));
          PackAllPrepend(Pack(bits), RunLength.Decode(elementSize, Some(bits), p[idx + elementSize + 1..]));
        }
      } else if previous.Some? {
        assert rest[1..] == p[idx + 1..];
        DecodeFromIsDecode(elementSize, payload, idx + 1, previous);
        PackAllPrepend(previous.value, RunLength.Decode(elementSize, BitsOption(previous), p[idx + 1..]));
      }
    }
  }

  lemma PackAllPrepend(element: BitVal, rest: Option<seq<Bits>>)
    ensures PackAllOption(RunLength.Prepend([element.Bits()], rest))
         == RunLength.Prepend([element], PackAllOption(rest))
  {
    if rest.Some? {
      PackBits(element);
      assert PackAll([element.Bits()] + rest.value) == [element] + PackAll(rest.value);
    }
  }

  method Decompress(elementSize: nat, payload: BitVal) returns (r: Option<seq<BitVal>>)
    ensures r == DecompressOf(elementSize, payload)
    ensures r.Some? <==> Readable(CompressedBitVec(payload, elementSize))
    ensures r.Some? ==> Denotes(CompressedBitVec(payload, elementSize), r.value)
  {
    DecompressAnswers(elementSize, payload);
    var es: seq<BitVal> := [];
    var idx := 0;
    var previous: Option<BitVal> := None;
    ghost var all := DecodeFrom(elementSize, payload, 0, None);
    RunLength.PrependNothing(all);
    DecodeFromIsDecode(elementSize, payload, 0, None);
    assert payload.Bits()[0..] == payload.Bits();
    while idx < payload.Len()
      invariant all == RunLength.Prepend(es, DecodeFrom(elementSize, payload, idx, previous))
      decreases payload.Len() - idx
    {
      var bit := payload.Get(idx);
      ghost var before := es;
      if bit.value {
        var previousElement := Range(payload, idx + 1, idx + elementSize + 1);
        if previousElement.None? {
          return None;
        }
        PackBits(previousElement.value);
        es := es + [previousElement.value];
        previous := previousElement;
        idx := idx + elementSize + 1;
      } else {
        if previous.None? {
          return None;
        }
        es := es + [previous.value];
        idx := idx + 1;
      }
      RunLength.PrependTwice(before, [previous.value], DecodeFrom(elementSize, payload, idx, previous));
    }
    assert es + [] == es;
    return Some(es);
  }

  ghost function DecompressVecOf(c: CompressedBitVec): Option<seq<BitVal>> {
    DecompressOf(c.elementSize, c.bits)
  }

  method DecompressVec(c: CompressedBitVec) returns (r: Option<seq<BitVal>>)
    ensures r == DecompressVecOf(c)
    ensures r.Some? <==> Readable(c)
    ensures r.Some? ==> Denotes(c, r.value)
  {
    DecompressAnswers(c.elementSize, c.bits);
    r := Decompress(c.elementSize, c.bits);
  }

  // ----- What the pair promises

  /** Decompression succeeds exactly on payloads that print tokens, with what they stand for. */
  lemma DecompressAnswers(elementSize: nat, payload: BitVal)
    ensures var r, c := DecompressOf(elementSize, payload), CompressedBitVec(payload, elementSize);
            && (r.Some? <==> Readable(c))
            && (r.Some? ==> Denotes(c, r.value))
  {
    var decoded := RunLength.Decode(elementSize, None, payload.Bits());
    RunLength.DecoderLanguage(elementSize, payload.Bits());
    if decoded.Some? {
      ElementsOfPackAll(decoded.value);
      RunLength.DecoderMeaning(elementSize, payload.Bits(), decoded.value);
    }
  }

  /** Every reading of a payload as tokens stands for what decompression answers; without one it answers None. */
  lemma DecompressLanguage(elementSize: nat, payload: BitVal)
    ensures DecompressOf(elementSize, payload).Some? <==>
            exists ts :: RunLength.Legal(elementSize, None, ts) && RunLength.Print(ts) == payload.Bits()
    ensures forall ts :: RunLength.Legal(elementSize, None, ts) && RunLength.Print(ts) == payload.Bits() ==>
              var r := DecompressOf(elementSize, payload);
              r.Some? && Elements(r.value) == RunLength.Expand(None, ts)
  {
    RunLength.DecoderLanguage(elementSize, payload.Bits());
    if RunLength.Decode(elementSize, None, payload.Bits()).Some? {
      ElementsOfPackAll(RunLength.Decode(elementSize, None, payload.Bits()).value);
    }
  }

  lemma DenotesIff(c: CompressedBitVec, es: seq<BitVal>)
    ensures DecompressVecOf(c) == Some(es) <==> Denotes(c, es)
  {
    RunLength.DecoderMeaning(c.elementSize, c.bits.Bits(), Elements(es));
    PackAllOfElements(es);
    if DecompressVecOf(c) == Some(es) {
      DecompressAnswers(c.elementSize, c.bits);
    }
  }

  /** Compression yields a payload that stands for the queue, and none that does is shorter. */
  lemma CompressMeaning(es: seq<BitVal>)
    ensures CompressVecOf(es).Some? <==> SameLengths(es)
    ensures CompressVecOf(es).Some? ==> Denotes(CompressVecOf(es).value, es)
    ensures CompressVecOf(es).Some? ==> forall c: CompressedBitVec ::
              c.elementSize == CompressVecOf(es).value.elementSize && Denotes(c, es) ==>
                CompressVecOf(es).value.bits.Len() <= c.bits.Len()
  {
    CompressesIffUniform(es);
    if CompressVecOf(es).Some? {
      var best := CompressVecOf(es).value;
      PackedRoundTrip(es);
      DenotesIff(best, es);
      forall c: CompressedBitVec | c.elementSize == best.elementSize && Denotes(c, es)
        ensures best.bits.Len() <= c.bits.Len()
      {
        RunLength.DecoderMeaning(c.elementSize, c.bits.Bits(), Elements(es));
        RunLength.EncodeIsShortest(c.elementSize, c.bits.Bits(), Elements(es));
        assert |best.bits.Bits()| == best.bits.Len() && |c.bits.Bits()| == c.bits.Len();
      }
    }
  }

  /** Compression succeeds exactly on equally long elements. */
  lemma CompressesIffUniform(es: seq<BitVal>)
    ensures CompressVecOf(es).Some? <==> SameLengths(es)
  {
    UniformElements(if es == [] then 0 else es[0].Len(), es);
  }

  /** Decompression undoes compression, on the packed words. */
  lemma PackedRoundTrip(es: seq<BitVal>)
    requires CompressVecOf(es).Some?
    ensures DecompressVecOf(CompressVecOf(es).value) == Some(es)
  {
    var n := CompressVecOf(es).value.elementSize;
    RunLength.RoundTrip(n, Elements(es));
    PackAllOfElements(es);
  }

  /** Compressing what a payload decodes to again succeeds, decodes alike and never takes more bits or words. */
  lemma RecompressNeverLengthens(c: CompressedBitVec)
    requires DecompressVecOf(c).Some?
    ensures var again := CompressOf(c.elementSize, DecompressVecOf(c).value);
            && again.Some?
            && DecompressOf(c.elementSize, again.value) == DecompressVecOf(c)
            && again.value.Len() <= c.bits.Len() && |again.value.storage| <= |c.bits.storage|
            && (c.elementSize >= 1 && again.value.Len() == c.bits.Len() ==> again.value == c.bits)
  {
    var es := DecompressVecOf(c).value;
    ElementsOfPackAll(RunLength.Decode(c.elementSize, None, c.bits.Bits()).value);
    RunLength.DecodedUniform(c.elementSize, None, c.bits.Bits());
    RunLength.EncodeIsShortest(c.elementSize, c.bits.Bits(), Elements(es));
    RunLength.EncodeIsShortestFrom(c.elementSize, None, c.bits.Bits());
    var again := CompressOf(c.elementSize, es).value;
    WordCount(again);
    WordCount(c.bits);
    Canonical(again, c.bits);
  }

  /** The exact size of a compressed queue, in bits and in words. */
  lemma CompressedSize(es: seq<BitVal>)
    requires CompressVecOf(es).Some?
    ensures var c := CompressVecOf(es).value;
            var size := |es| + c.elementSize * |RunLength.RunStarts(Elements(es))|;
            c.bits.Len() == size && |c.bits.storage| == if size == 0 then 1 else (size + 31) / 32
  {
    var c := CompressVecOf(es).value;
    RunLength.EncodedLength(c.elementSize, Elements(es));
    assert c.bits.Len() == |c.bits.Bits()|;
    WordCount(c.bits);
  }
}
