/** Bit masks of nodes held in bytes (micscif/micscif_nm.c). */
module NodeMask {
  import opened Bits

  /** Node `v` is in the mask. */
  predicate InMask(mask: seq<byte>, v: nat)
    requires v < 8 * |mask|
  {
    Bit(mask[v / 8] as nat, v % 8)
  }

  /** `*temp_mask |= (1ULL << b)` or `*temp_mask &= ~(1ULL << b)`. */
  function WithBit(m: byte, b: nat, val: bool): byte
    requires b < 8
  {
    ByteBounds(m, b);
    if val then Or(m as nat, Pow2(b)) as byte else And(m as nat, Not(8, Pow2(b))) as byte
  }

  lemma ByteBounds(m: byte, b: nat)
    requires b < 8
    ensures Pow2(8) == 256 && Pow2(b) < 256 && Or(m as nat, Pow2(b)) < 256 && And(m as nat, Not(8, Pow2(b))) < 256
  {
    hide Pow2, Or, And, Not;
    WordSizes();
    Pow2Increases(b, 8);
    OrBound(8, m as nat, Pow2(b));
    AndBound(m as nat, Not(8, Pow2(b)));
  }

  lemma WithBitIs(m: byte, b: nat, val: bool, i: nat)
    requires b < 8 && i < 8
    ensures Bit(WithBit(m, b, val) as nat, i) <==> if i == b then val else Bit(m as nat, i)
  {
    hide Pow2, Or, And, Not, Bit;
    ByteBounds(m, b);
    Pow2Bit(b, i);
    OrBit(m as nat, Pow2(b), i);
    AndBit(m as nat, Not(8, Pow2(b)), i);
    NotBit(8, Pow2(b), i);
  }

  /** Setting or clearing one node leaves every other node of the mask as it was. */
  lemma MaskUpdated(mask: seq<byte>, v: nat, val: bool, u: nat)
    requires v < 8 * |mask| && u < 8 * |mask|
    ensures InMask(mask[v / 8 := WithBit(mask[v / 8], v % 8, val)], u) <==> if u == v then val else InMask(mask, u)
  {
    hide WithBit, Bit;
    if u / 8 == v / 8 { WithBitIs(mask[v / 8], v % 8, val, u % 8); }
  }

  /** set_nodemask_bit. */
  method SetNodemaskBit(mask: array<byte>, node: nat, val: bool)
    requires node < 8 * mask.Length
    modifies mask
    ensures forall u :: 0 <= u < 8 * mask.Length ==>
      (InMask(mask[..], u) <==> if u == node then val else old(InMask(mask[..], u)))
  {
    hide WithBit, InMask;
    ghost var was := mask[..];
    var index := node / 8;
    var bit := node - index * 8;
    mask[index] := WithBit(mask[index], bit, val);
    assert mask[..] == was[node / 8 := WithBit(was[node / 8], node % 8, val)];
    forall u | 0 <= u < 8 * |was| ensures InMask(mask[..], u) <==> if u == node then val else InMask(was, u) {
      MaskUpdated(was, node, val, u);
    }
  }

  /** get_nodemask_bit: the byte masked with the node's bit, so non-zero means present. */
  method GetNodemaskBit(mask: seq<byte>, node: nat) returns (r: nat)
    requires node < 8 * |mask|
    ensures r != 0 <==> InMask(mask, node)
    ensures r < 256
  {
    hide And, Pow2, Bit;
    var index := node / 8;
    var bit := node - index * 8;
    r := And(mask[index] as nat, Pow2(bit));
    TestByte(mask[index], bit);
  }

  lemma TestByte(m: byte, b: nat)
    requires b < 8
    ensures And(m as nat, Pow2(b)) < 256 && (And(m as nat, Pow2(b)) != 0 <==> Bit(m as nat, b))
  {
    hide And, Bit, Pow2;
    var w := And(m as nat, Pow2(b));
    WordSizes();
    AndBound(m as nat, Pow2(b));
    AndBit(m as nat, Pow2(b), b);
    Pow2Bit(b, b);
    ZeroBit(b);
    if !Bit(m as nat, b) {
      forall i: nat | i < 8 ensures !Bit(w, i) {
        AndBit(m as nat, Pow2(b), i);
        Pow2Bit(b, i);
      }
      AllClearIsZero(w, 8);
    }
  }

  /** The mask gained exactly the nodes of `s`. */
  ghost predicate Gains(before: seq<byte>, after: seq<byte>, s: set<nat>)
  {
    && |before| == |after|
    && forall v :: 0 <= v < 8 * |after| ==> (InMask(after, v) <==> InMask(before, v) || v in s)
  }
}
