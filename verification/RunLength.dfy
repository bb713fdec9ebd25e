/**
 The run-length code of src/bitvec.rs on boolean sequences: what `compress` and
 `decompress` compute, and what the code promises about them.
 */
module RunLength {
  import opened Wrappers
  import opened Words

  ghost predicate Uniform(n: nat, es: seq<Bits>) {
    forall i :: 0 <= i < |es| ==> |es[i]| == n
  }

  /** A 1-bit and the value for an element that differs from the previous one, a 0-bit otherwise. */
  function Encode(previous: Option<Bits>, es: seq<Bits>): Bits
    decreases es
  {
    if es == [] then []
    else if previous == Some(es[0]) then [false] + Encode(previous, es[1..])
    else [true] + es[0] + Encode(Some(es[0]), es[1..])
  }

  /** Reads elements of n bits from p until it is used up; None when p ends inside a literal or starts with a 0-bit. */
  function Decode(n: nat, previous: Option<Bits>, p: Bits): Option<seq<Bits>>
    decreases |p|
  {
    if p == [] then Some([])
    else if p[0] then
      if |p| < n + 1 then None
      else Prepend([p[1..n + 1]], Decode(n, Some(p[1..n + 1]), p[n + 1..]))
    else
      match previous
      case None => None
      case Some(element) => Prepend([element], Decode(n, previous, p[1..]))
  }

  function Prepend<T>(done: seq<T>, rest: Option<seq<T>>): Option<seq<T>> {
    match rest
    case None => None
    case Some(es) => Some(done + es)
  }

  function LastOr(previous: Option<Bits>, es: seq<Bits>): Option<Bits> {
    if es == [] then previous else Some(es[|es| - 1])
  }

  lemma PrependTwice<T>(a: seq<T>, b: seq<T>, rest: Option<seq<T>>)
    ensures Prepend(a, Prepend(b, rest)) == Prepend(a + b, rest)
  {
    if rest.Some? {
      assert a + (b + rest.value) == a + b + rest.value;
    }
  }

  lemma PrependNothing<T>(rest: Option<seq<T>>)
    ensures Prepend([], rest) == rest
  {
    if rest.Some? {
      assert [] + rest.value == rest.value;
    }
  }

  lemma DecodeLiteral(previous: Option<Bits>, element: Bits, rest: Bits)
    ensures Decode(|element|, previous, [true] + element + rest)
         == Prepend([element], Decode(|element|, Some(element), rest))
  {
    var p := [true] + element + rest;
    assert p[1..|element| + 1] == element && p[|element| + 1..] == rest;
  }

  lemma DecodeRepeat(n: nat, element: Bits, rest: Bits)
    ensures Decode(n, Some(element), [false] + rest) == Prepend([element], Decode(n, Some(element), rest))
  {
    assert ([false] + rest)[1..] == rest;
  }

  // ----- Round trip and composition

  lemma {:induction false} EncodeConcat(previous: Option<Bits>, s: seq<Bits>, t: seq<Bits>)
    ensures Encode(previous, s + t) == Encode(previous, s) + Encode(LastOr(previous, s), t)
    decreases s
  {
    if s == [] {
      assert s + t == t;
    } else {
      assert (s + t)[1..] == s[1..] + t;
      EncodeConcat(Some(s[0]), s[1..], t);
    }
  }

  lemma EncodeSnoc(es: seq<Bits>, last: Bits)
    ensures Encode(None, es + [last])
         == Encode(None, es) + if LastOr(None, es) == Some(last) then [false] else [true] + last
  {
    EncodeConcat(None, es, [last]);
    assert [last][1..] == [] && [true] + last + [] == [true] + last;
  }

  /** Decoding what was encoded gives it back, whatever follows it in the payload. */
  lemma {:induction false} DecodeEncodeThen(n: nat, previous: Option<Bits>, es: seq<Bits>, rest: Bits)
    requires Uniform(n, es)
    ensures Decode(n, previous, Encode(previous, es) + rest) == Prepend(es, Decode(n, LastOr(previous, es), rest))
    decreases es
  {
    if es == [] {
      assert Encode(previous, es) + rest == rest;
      PrependNothing(Decode(n, previous, rest));
    } else {
      var head := Some(es[0]);
      var tail := Encode(head, es[1..]) + rest;
      DecodeEncodeThen(n, head, es[1..], rest);
      PrependTwice([es[0]], es[1..], Decode(n, LastOr(previous, es), rest));
      assert [es[0]] + es[1..] == es;
      if previous == head {
        assert Encode(previous, es) + rest == [false] + tail;
        DecodeRepeat(n, es[0], tail);
      } else {
        assert Encode(previous, es) + rest == [true] + es[0] + tail;
        DecodeLiteral(previous, es[0], tail);
      }
    }
  }

  lemma RoundTrip(n: nat, es: seq<Bits>)
    requires Uniform(n, es)
    ensures Decode(n, None, Encode(None, es)) == Some(es)
  {
    DecodeEncodeThen(n, None, es, []);
    assert Encode(None, es) + [] == Encode(None, es);
    assert es + [] == es;
  }

  lemma {:induction false} DecodedUniform(n: nat, previous: Option<Bits>, p: Bits)
    requires previous.Some? ==> |previous.value| == n
    requires Decode(n, previous, p).Some?
    ensures Uniform(n, Decode(n, previous, p).value)
    decreases |p|
  {
    if p == [] {
    } else {
      if p[0] {
        DecodedUniform(n, Some(p[1..n + 1]), p[n + 1..]);
      } else {
        DecodedUniform(n, previous, p[1..]);
      }
    }
  }

  /** The first token of a decodable payload decodes the same whatever follows the payload. */
  lemma DecodeFirst(n: nat, previous: Option<Bits>, p: Bits, q: Bits) returns (element: Bits, k: nat)
    requires p != [] && Decode(n, previous, p).Some?
    ensures 0 < k <= |p|
    ensures Decode(n, previous, p) == Prepend([element], Decode(n, Some(element), p[k..]))
    ensures Decode(n, previous, p + q) == Prepend([element], Decode(n, Some(element), p[k..] + q))
  {
    if p[0] {
      element, k := p[1..n + 1], n + 1;
      assert p + q == [true] + element + (p[k..] + q);
      DecodeLiteral(previous, element, p[k..] + q);
    } else {
      element, k := previous.value, 1;
      assert p + q == [false] + (p[k..] + q);
      DecodeRepeat(n, element, p[k..] + q);
    }
  }

  lemma {:induction false} DecodeConcatFrom(n: nat, previous: Option<Bits>, p: Bits, q: Bits)
    requires Decode(n, previous, p).Some?
    ensures var s := Decode(n, previous, p).value;
            Decode(n, previous, p + q) == Prepend(s, Decode(n, LastOr(previous, s), q))
    decreases |p|
  {
    if p == [] {
      assert p + q == q;
      PrependNothing(Decode(n, previous, q));
    } else {
      var element, k := DecodeFirst(n, previous, p, q);
      DecodeConcatFrom(n, Some(element), p[k..], q);
      var s := Decode(n, Some(element), p[k..]).value;
      LastOrCons(previous, element, s);
      PrependTwice([element], s, Decode(n, LastOr(Some(element), s), q));
    }
  }

  lemma LastOrCons(previous: Option<Bits>, element: Bits, es: seq<Bits>)
    ensures LastOr(previous, [element] + es) == LastOr(Some(element), es)
  {
  }

  lemma {:induction false} DecodeIgnoresPrevious(n: nat, previous: Option<Bits>, p: Bits)
    requires Decode(n, None, p).Some?
    ensures Decode(n, previous, p) == Decode(n, None, p)
  {
  }

  /** A concatenation of decodable payloads decodes to the concatenated sequences. */
  lemma DecodeConcat(n: nat, p: Bits, q: Bits)
    requires Decode(n, None, p).Some? && Decode(n, None, q).Some?
    ensures Decode(n, None, p + q) == Some(Decode(n, None, p).value + Decode(n, None, q).value)
  {
    DecodeConcatFrom(n, None, p, q);
    DecodeIgnoresPrevious(n, LastOr(None, Decode(n, None, p).value), q);
  }

  // ----- The language of decodable payloads

  datatype Token = Literal(value: Bits) | Repeat

  function PrintToken(t: Token): Bits {
    match t
    case Literal(value) => [true] + value
    case Repeat => [false]
  }

  function Print(ts: seq<Token>): Bits {
    if ts == [] then [] else PrintToken(ts[0]) + Print(ts[1..])
  }

  /** Literals have n bits, and nothing is repeated before there is something to repeat. */
  ghost predicate Legal(n: nat, previous: Option<Bits>, ts: seq<Token>) {
    && (forall i :: 0 <= i < |ts| && ts[i].Literal? ==> |ts[i].value| == n)
    && (ts != [] && previous.None? ==> ts[0].Literal?)
  }

  /** Token i stands for the latest literal up to and including i. */
  function Expand(previous: Option<Bits>, ts: seq<Token>): (es: seq<Bits>)
    requires ts != [] && previous.None? ==> ts[0].Literal?
    ensures |es| == |ts|
    decreases ts
  {
    if ts == [] then []
    else
      var element := if ts[0].Literal? then ts[0].value else previous.value;
      [element] + Expand(Some(element), ts[1..])
  }

  lemma {:induction false} DecodePrint(n: nat, previous: Option<Bits>, ts: seq<Token>)
    requires Legal(n, previous, ts)
    ensures Decode(n, previous, Print(ts)) == Some(Expand(previous, ts))
    decreases ts
  {
    if ts == [] {
    } else {
      var element := if ts[0].Literal? then ts[0].value else previous.value;
      var k := |PrintToken(ts[0])|;
      assert Print(ts)[k..] == Print(ts[1..]);
      assert ts[0].Literal? ==> Print(ts)[1..k] == element;
      DecodePrint(n, Some(element), ts[1..]);
    }
  }

  lemma {:induction false} ParseExists(n: nat, previous: Option<Bits>, p: Bits) returns (ts: seq<Token>)
    requires Decode(n, previous, p).Some?
    ensures Legal(n, previous, ts) && Print(ts) == p
    decreases |p|
  {
    if p == [] {
      ts := [];
    } else {
      var k := if p[0] then n + 1 else 1;
      var token := if p[0] then Literal(p[1..k]) else Repeat;
      var rest := ParseExists(n, if p[0] then Some(p[1..k]) else previous, p[k..]);
      ts := [token] + rest;
      assert ts[1..] == rest;
      assert PrintToken(token) + p[k..] == p;
    }
  }

  /** The decodable payloads are exactly the printed legal token sequences. */
  lemma DecoderLanguage(n: nat, p: Bits)
    ensures Decode(n, None, p).Some? <==> exists ts :: Legal(n, None, ts) && Print(ts) == p
    ensures forall ts :: Legal(n, None, ts) && Print(ts) == p ==> Decode(n, None, p) == Some(Expand(None, ts))
  {
    if Decode(n, None, p).Some? {
      var ts := ParseExists(n, None, p);
    }
    forall ts | Legal(n, None, ts) && Print(ts) == p
      ensures Decode(n, None, p) == Some(Expand(None, ts))
    {
      DecodePrint(n, None, ts);
    }
  }

  ghost predicate Decodable(n: nat, p: Bits) {
    exists ts :: Legal(n, None, ts) && Print(ts) == p
  }

  /** p prints a legal token sequence that stands for es. */
  ghost predicate Means(n: nat, p: Bits, es: seq<Bits>) {
    exists ts :: Legal(n, None, ts) && Print(ts) == p && Expand(None, ts) == es
  }

  lemma DecoderMeaning(n: nat, p: Bits, es: seq<Bits>)
    ensures Decode(n, None, p).Some? <==> Decodable(n, p)
    ensures Decode(n, None, p) == Some(es) <==> Means(n, p, es)
  {
    DecoderLanguage(n, p);
  }

  lemma {:induction false} ParseUnique(n: nat, ts: seq<Token>, us: seq<Token>)
    requires forall i :: 0 <= i < |ts| && ts[i].Literal? ==> |ts[i].value| == n
    requires forall i :: 0 <= i < |us| && us[i].Literal? ==> |us[i].value| == n
    requires Print(ts) == Print(us)
    ensures ts == us
  {
    if ts == [] || us == [] {
    } else {
      var p := Print(ts);
      assert p[0] == ts[0].Literal? && p[0] == us[0].Literal?;
      var k := |PrintToken(ts[0])|;
      assert p[..k] == PrintToken(ts[0]) && p[..k] == PrintToken(us[0]);
      assert ts[0].Literal? ==> p[..k][1..] == ts[0].value && p[..k][1..] == us[0].value;
      assert p[k..] == Print(ts[1..]) && p[k..] == Print(us[1..]);
      ParseUnique(n, ts[1..], us[1..]);
      assert ts == [ts[0]] + ts[1..] && us == [us[0]] + us[1..];
    }
  }

  // ----- Prefixes

  /** Cutting after k bits falls between two tokens. */
  ghost predicate Boundary(ts: seq<Token>, j: nat, k: nat) {
    j <= |ts| && |Print(ts[..j])| == k
  }

  lemma {:induction false} PrefixFrom(n: nat, previous: Option<Bits>, ts: seq<Token>, k: nat)
    requires Legal(n, previous, ts) && k <= |Print(ts)|
    ensures forall j: nat :: Boundary(ts, j, k) ==>
      Decode(n, previous, Print(ts)[..k]) == Some(Expand(previous, ts)[..j])
    ensures (forall j: nat :: !Boundary(ts, j, k)) ==> Decode(n, previous, Print(ts)[..k]) == None
    decreases ts
  {
    var p := Print(ts);
    forall j: nat | Boundary(ts, j, k)
      ensures Decode(n, previous, p[..k]) == Some(Expand(previous, ts)[..j])
    {
      PrintSplit(ts, j);
      assert p[..k] == Print(ts[..j]);
      DecodePrint(n, previous, ts[..j]);
      ExpandTake(previous, ts, j);
    }
    if forall j: nat :: !Boundary(ts, j, k) {
      assert ts[..0] == [];
      assert !Boundary(ts, 0, k);
      var w := |PrintToken(ts[0])|;
      if k < w {
        assert p[..k][0] == p[0] == PrintToken(ts[0])[0];
        if ts[0].Repeat? {
          assert false;
        }
      } else {
        var element := if ts[0].Literal? then ts[0].value else previous.value;
        var rest := k - w;
        if exists j: nat :: Boundary(ts[1..], j, rest) {
          var j: nat :| Boundary(ts[1..], j, rest);
          assert ts[..j + 1] == [ts[0]] + ts[1..][..j];
          assert Boundary(ts, j + 1, k);
        }
        PrefixFrom(n, Some(element), ts[1..], rest);
        assert p[..k] == PrintToken(ts[0]) + Print(ts[1..])[..k - w];
        assert p[..k][w..] == Print(ts[1..])[..k - w];
        assert ts[0].Literal? ==> p[..k][1..n + 1] == element;
      }
    }
  }

  lemma {:induction false} PrintSplit(ts: seq<Token>, j: nat)
    requires j <= |ts|
    ensures Print(ts) == Print(ts[..j]) + Print(ts[j..])
  {
    if j > 0 {
      PrintSplit(ts[1..], j - 1);
      assert ts[..j] == [ts[0]] + ts[1..][..j - 1];
      assert ts[1..][j - 1..] == ts[j..];
    } else {
      assert ts[..0] == [] && ts[0..] == ts;
    }
  }

  lemma {:induction false} ExpandTake(previous: Option<Bits>, ts: seq<Token>, j: nat)
    requires j <= |ts|
    requires ts != [] && previous.None? ==> ts[0].Literal?
    ensures Expand(previous, ts[..j]) == Expand(previous, ts)[..j]
    decreases ts
  {
    if j == 0 {
    } else {
      var element := if ts[0].Literal? then ts[0].value else previous.value;
      assert ts[..j][1..] == ts[1..][..j - 1];
      ExpandTake(Some(element), ts[1..], j - 1);
    }
  }

  /**
   A payload cut after k bits decodes to a prefix of the sequence when the cut falls
   between two tokens, and to None exactly when it falls inside a literal.
   */
  lemma PrefixSafety(n: nat, p: Bits, k: nat)
    requires Decode(n, None, p).Some? && k <= |p|
    ensures exists ts :: Legal(n, None, ts) && Print(ts) == p
    ensures forall ts :: Legal(n, None, ts) && Print(ts) == p ==>
      && |ts| == |Decode(n, None, p).value|
      && (Decode(n, None, p[..k]) == None <==> forall j: nat :: !Boundary(ts, j, k))
      && forall j: nat :: Boundary(ts, j, k) ==> Decode(n, None, p[..k]) == Some(Decode(n, None, p).value[..j])
  {
    DecoderLanguage(n, p);
    forall ts | Legal(n, None, ts) && Print(ts) == p
      ensures |ts| == |Decode(n, None, p).value|
      ensures Decode(n, None, p[..k]) == None <==> forall j: nat :: !Boundary(ts, j, k)
      ensures forall j: nat :: Boundary(ts, j, k) ==> Decode(n, None, p[..k]) == Some(Decode(n, None, p).value[..j])
    {
      PrefixFrom(n, None, ts, k);
    }
  }

  // ----- Minimal encoding

  lemma {:induction false} EncodeIsShortestFrom(n: nat, previous: Option<Bits>, p: Bits)
    requires Decode(n, previous, p).Some?
    ensures var best := Encode(previous, Decode(n, previous, p).value);
            |best| <= |p| && (|best| == |p| && n >= 1 ==> best == p)
    decreases |p|
  {
    if p == [] {
    } else {
      var es := Decode(n, previous, p).value;
      var k := if p[0] then n + 1 else 1;
      EncodeIsShortestFrom(n, Some(es[0]), p[k..]);
      assert es[1..] == Decode(n, Some(es[0]), p[k..]).value;
      assert p == (if p[0] then [true] + es[0] else [false]) + p[k..];
    }
  }

  /** The encoder's output is a shortest payload for its sequence. */
  lemma EncodeIsShortest(n: nat, p: Bits, es: seq<Bits>)
    requires Decode(n, None, p) == Some(es)
    ensures Decode(n, None, Encode(None, es)) == Some(es)
    ensures |Encode(None, es)| <= |p|
  {
    DecodedUniform(n, None, p);
    RoundTrip(n, es);
    EncodeIsShortestFrom(n, None, p);
  }

  /** It is the only shortest payload exactly when elements have bits or there is at most one element. */
  lemma ShortestIsUniqueIff(n: nat, es: seq<Bits>)
    requires Uniform(n, es)
    ensures (n >= 1 || |es| <= 1) <==>
      forall p :: Decode(n, None, p) == Some(es) && |p| == |Encode(None, es)| ==> p == Encode(None, es)
  {
    if n >= 1 || |es| <= 1 {
      forall p | Decode(n, None, p) == Some(es) && |p| == |Encode(None, es)|
        ensures p == Encode(None, es)
      {
        EncodeIsShortestFrom(n, None, p);
        if n == 0 && p != [] {
          assert p[0] && p[1..] == [];
          assert p == [true];
          assert es[0] == [] && es[1..] == [];
        }
      }
    } else {
      var p := seq(|es|, i => true);
      AllLiterals(None, es, p);
      assert es[0] == [] && es[1] == [];
      assert Encode(None, es)[1] == false;
      LengthOfEmptyElements(None, es);
      assert p[1];
    }
  }

  lemma {:induction false} AllLiterals(previous: Option<Bits>, es: seq<Bits>, p: Bits)
    requires Uniform(0, es) && |p| == |es| && forall i :: 0 <= i < |p| ==> p[i]
    ensures Decode(0, previous, p) == Some(es)
    decreases es
  {
    if es == [] {
    } else {
      AllLiterals(Some([]), es[1..], p[1..]);
      assert p[1..1] == [] && es[0] == [];
      assert es == [es[0]] + es[1..];
    }
  }

  lemma {:induction false} LengthOfEmptyElements(previous: Option<Bits>, es: seq<Bits>)
    requires Uniform(0, es)
    ensures |Encode(previous, es)| == |es|
    decreases es
  {
    if es == [] {
    } else {
      LengthOfEmptyElements(Some(es[0]), es[1..]);
    }
  }

  // ----- Exact size

  /** The positions at which a maximal run of equal elements begins. */
  ghost function RunStarts(es: seq<Bits>): set<nat> {
    set i: nat | i < |es| && StartsRun(es, i)
  }

  ghost predicate StartsRun(es: seq<Bits>, i: nat)
    requires i < |es|
  {
    i == 0 || es[i] != es[i - 1]
  }

  lemma RunStartsSnoc(es: seq<Bits>, last: Bits)
    ensures |RunStarts(es + [last])| == |RunStarts(es)| + if LastOr(None, es) == Some(last) then 0 else 1
  {
    var all := es + [last];
    forall i: nat | i < |es|
      ensures StartsRun(all, i) <==> StartsRun(es, i)
    {
    }
    if LastOr(None, es) == Some(last) {
      assert RunStarts(all) == RunStarts(es);
    } else {
      assert RunStarts(all) == RunStarts(es) + {|es|};
    }
  }

  lemma OneMoreRun(n: nat, runs: nat)
    ensures n * (runs + 1) == n * runs + n
  {
  }

  /** One bit per element and n more for each maximal run. */
  lemma {:induction false} EncodedLength(n: nat, es: seq<Bits>)
    requires Uniform(n, es)
    ensures |Encode(None, es)| == |es| + n * |RunStarts(es)|
  {
    if es == [] {
      assert RunStarts(es) == {};
    } else {
      var init, last := es[..|es| - 1], es[|es| - 1];
      assert es == init + [last];
      EncodedLength(n, init);
      EncodeSnoc(init, last);
      RunStartsSnoc(init, last);
      OneMoreRun(n, |RunStarts(init)|);
    }
  }

  lemma {:induction false} RunsAtMost(es: seq<Bits>)
    ensures |RunStarts(es)| <= |es|
  {
    if es == [] {
      assert RunStarts(es) == {};
    } else {
      RunsAtMost(es[..|es| - 1]);
      RunStartsSnoc(es[..|es| - 1], es[|es| - 1]);
      assert es[..|es| - 1] + [es[|es| - 1]] == es;
    }
  }

  /** Encoding two sequences together saves one literal's bits when the seam repeats, and nothing otherwise. */
  lemma SeamSaving(n: nat, s: seq<Bits>, t: seq<Bits>)
    requires Uniform(n, s) && Uniform(n, t) && s != [] && t != []
    ensures |Encode(None, s)| + |Encode(None, t)|
         == |Encode(None, s + t)| + if s[|s| - 1] == t[0] then n else 0
  {
    EncodeConcat(None, s, t);
  }
}
