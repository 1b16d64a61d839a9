/** `SlottedPageFormatter`: the byte layout of a slotted page. A page of
    `pageSize` bytes is a header bitmap with one bit per slot, then every slot
    in order (the tuple's fields, or zeros for an empty slot), then zero
    padding. Only INT_TYPE fields are modelled; an int is written big-endian
    in four bytes, as `DataOutputStream.writeInt` does. */
module Formatter {
  import opened Common
  import opened Types
  import opened TupleDescs

  /** What the layout records of one slot: the int values of the tuple
      stored there, or nothing for an empty slot. */
  type SlotImage = Option<seq<Int32>>

  /* ---------------------------------------------------------------------
     Capacity and header size
     --------------------------------------------------------------------- */

  /** `computePageCapacity`: the most tuples whose bytes plus one header bit
      each fit in the page, floor(8 * pageSize / (8 * tupleSize + 1)). */
  function Capacity(pageSize: nat, td: TupleDesc): (n: nat)
    ensures n * (8 * Size(td) + 1) <= 8 * pageSize
    ensures 8 * pageSize < (n + 1) * (8 * Size(td) + 1)
  {
    Quotient(8 * pageSize, 8 * Size(td) + 1)
  }

  /** Integer division: the q with q * d <= a < (q + 1) * d. */
  function Quotient(a: nat, d: nat): (q: nat)
    requires d > 0
    ensures q * d <= a < (q + 1) * d
  {
    a / d
  }

  /** `getHeaderSize`: the bytes that hold one bit per slot, ceil(numSlots / 8). */
  function HeaderSize(numSlots: nat): (h: nat)
    ensures numSlots <= 8 * h < numSlots + 8
  {
    (numSlots + 7) / 8
  }

  /** A page of Capacity(pageSize, td) slots fits its header and all its
      tuples into pageSize bytes, and a page with one slot more would not. */
  lemma CapacityFits(pageSize: nat, td: TupleDesc)
    ensures var n := Capacity(pageSize, td);
      HeaderSize(n) + n * Size(td) <= pageSize
    ensures var n := Capacity(pageSize, td);
      HeaderSize(n + 1) + (n + 1) * Size(td) > pageSize
  {
    var n := Capacity(pageSize, td);
    var s := Size(td);
    BitsAndBytes(n, s);
    BitsAndBytes(n + 1, s);
  }

  /** x tuples of s bytes and one header bit each take 8 * x * s + x bits. */
  lemma BitsAndBytes(x: nat, s: nat)
    ensures x * (8 * s + 1) == 8 * (x * s) + x
  {
  }

  /** The capacities and header sizes the page layout is documented with. */
  lemma CapacityExamples(oneInt: TupleDesc, twoInts: TupleDesc, intString: TupleDesc)
    requires TypesOf(oneInt) == [IntType]
    requires TypesOf(twoInts) == [IntType, IntType]
    requires TypesOf(intString) == [IntType, StringType]
    ensures Capacity(4, oneInt) == 0 && Capacity(8, oneInt) == 1 && Capacity(9, oneInt) == 2
    ensures Capacity(8, twoInts) == 0 && Capacity(9, twoInts) == 1 && Capacity(17, twoInts) == 2
    ensures Capacity(544, intString) == 3 && Capacity(545, intString) == 4
    ensures HeaderSize(1) == 1 && HeaderSize(8) == 1 && HeaderSize(9) == 2 && HeaderSize(4097) == 513
  {
    assert SumLen([IntType]) == 4 by { assert [IntType][1..] == []; }
    assert SumLen([IntType, IntType]) == 8 by { assert [IntType, IntType][1..] == [IntType]; }
    assert SumLen([IntType, StringType]) == 136 by {
      assert [IntType, StringType][1..] == [StringType];
      assert [StringType][1..] == [];
    }
    assert Capacity(8, oneInt) == 64 / 33 && Capacity(9, oneInt) == 72 / 33;
    assert Capacity(544, intString) == 4352 / 1089 && Capacity(545, intString) == 4360 / 1089;
  }

  /* ---------------------------------------------------------------------
     The header bitmap
     --------------------------------------------------------------------- */

  /** The byte with only bit k set, k = 0 being the least significant. */
  function Mask(k: nat): bv8
    requires k < 8
  {
    if k == 0 then 0x01 else if k == 1 then 0x02 else if k == 2 then 0x04 else if k == 3 then 0x08
    else if k == 4 then 0x10 else if k == 5 then 0x20 else if k == 6 then 0x40 else 0x80
  }

  /** Bit k of a byte: `(b >> k) & 1` is one. */
  predicate Bit(b: bv8, k: nat)
    requires k < 8
  {
    b & Mask(k) != 0
  }

  /** A byte with bit k set to `used` and every other bit as in `b`. */
  function MarkBit(b: bv8, k: nat, used: bool): (r: bv8)
    requires k < 8
    ensures Bit(r, k) == used
  {
    if used then b | Mask(k) else b & !Mask(k)
  }

  /** Distinct bits have disjoint masks. */
  lemma MaskDisjoint(j: nat, k: nat)
    requires j < 8 && k < 8 && j != k
    ensures Mask(j) & Mask(k) == 0
  {
  }

  /** Marking bit k leaves every other bit as it was. */
  lemma MarkBitOthers(b: bv8, k: nat, used: bool, j: nat)
    requires k < 8 && j < 8 && j != k
    ensures Bit(MarkBit(b, k, used), j) == Bit(b, j)
  {
    MaskDisjoint(j, k);
  }

  /** Two bytes that agree on all eight bits are equal. */
  lemma SameBitsSameByte(a: bv8, b: bv8)
    requires forall k :: 0 <= k < 8 ==> Bit(a, k) == Bit(b, k)
    ensures a == b
  {
    assert Bit(a, 0) == Bit(b, 0) && Bit(a, 1) == Bit(b, 1);
    assert Bit(a, 2) == Bit(b, 2) && Bit(a, 3) == Bit(b, 3);
    assert Bit(a, 4) == Bit(b, 4) && Bit(a, 5) == Bit(b, 5);
    assert Bit(a, 6) == Bit(b, 6) && Bit(a, 7) == Bit(b, 7);
  }

  /** `isSlotUsed(i, header)`: bit i mod 8 of header byte i / 8. */
  predicate SlotUsed(header: seq<bv8>, i: nat)
    requires i < 8 * |header|
  {
    Bit(header[i / 8], i % 8)
  }

  /** The header after `markSlot(i, header, isUsed)`. */
  function Marked(header: seq<bv8>, i: nat, isUsed: bool): (h: seq<bv8>)
    requires i < 8 * |header|
    ensures |h| == |header|
    ensures SlotUsed(h, i) == isUsed
  {
    header[i / 8 := MarkBit(header[i / 8], i % 8, isUsed)]
  }

  /** Marking slot i leaves every other slot's bit as it was. */
  lemma MarkedOthers(header: seq<bv8>, i: nat, isUsed: bool, j: nat)
    requires i < 8 * |header| && j < 8 * |header| && j != i
    ensures SlotUsed(Marked(header, i, isUsed), j) == SlotUsed(header, j)
  {
    if j / 8 == i / 8 {
      MarkBitOthers(header[i / 8], i % 8, isUsed, j % 8);
    }
  }

  /** `markSlot`: sets slot i's bit to `isUsed` in place. */
  method MarkSlot(i: nat, header: array<bv8>, isUsed: bool)
    requires i < 8 * header.Length
    modifies header
    ensures header[..] == Marked(old(header[..]), i, isUsed)
  {
    header[i / 8] := MarkBit(header[i / 8], i % 8, isUsed);
  }

  /** The bit layout drawn in the documentation: 0b10010110 marks slots
      1, 2, 4 and 7; 0x09 marks slots 0 and 3. */
  lemma HeaderByteExamples()
    ensures forall j :: 0 <= j < 8 ==> (SlotUsed([0x96], j) <==> j == 1 || j == 2 || j == 4 || j == 7)
    ensures forall j :: 0 <= j < 8 ==> (SlotUsed([0x09], j) <==> j == 0 || j == 3)
  {
    forall j | 0 <= j < 8
      ensures SlotUsed([0x96], j) <==> j == 1 || j == 2 || j == 4 || j == 7
      ensures SlotUsed([0x09], j) <==> j == 0 || j == 3
    {
      assert [0x96 as bv8][j / 8] == 0x96;
      assert [0x09 as bv8][j / 8] == 0x09;
    }
  }

  /** `n` zero bytes. */
  function Zeros(n: nat): (z: seq<bv8>)
    ensures |z| == n
    ensures forall i :: 0 <= i < n ==> z[i] == 0
  {
    seq(n, _ => 0)
  }

  /** Which slots hold a tuple. */
  function UsedBits(slots: seq<SlotImage>): (u: seq<bool>)
    ensures |u| == |slots|
    ensures forall i :: 0 <= i < |slots| ==> u[i] == slots[i].Some?
  {
    seq(|slots|, i requires 0 <= i < |slots| => slots[i].Some?)
  }

  /** A zeroed header of the right size with slots 0 .. k - 1 marked one at
      a time, as `pageToBytes` builds it. */
  function HeaderPrefix(used: seq<bool>, k: nat): (h: seq<bv8>)
    requires k <= |used|
    ensures |h| == HeaderSize(|used|)
  {
    if k == 0 then Zeros(HeaderSize(|used|))
    else Marked(HeaderPrefix(used, k - 1), k - 1, used[k - 1])
  }

  /** The header of a page whose slots are used as `used` says. */
  function Header(used: seq<bool>): seq<bv8>
  {
    HeaderPrefix(used, |used|)
  }

  /** After marking slots 0 .. k - 1, exactly the marked-used ones among
      them are set; every other bit, padding bits included, is zero. */
  lemma {:induction false} HeaderPrefixBits(used: seq<bool>, k: nat)
    requires k <= |used|
    ensures forall j :: 0 <= j < 8 * HeaderSize(|used|) ==>
      SlotUsed(HeaderPrefix(used, k), j) == (j < k && used[j])
  {
    if k == 0 {
      ZeroHeaderBits(HeaderSize(|used|));
    } else {
      HeaderPrefixBits(used, k - 1);
      var prev := HeaderPrefix(used, k - 1);
      forall j | 0 <= j < 8 * HeaderSize(|used|)
        ensures SlotUsed(HeaderPrefix(used, k), j) == (j < k && used[j])
      {
        if j != k - 1 {
          MarkedOthers(prev, k - 1, used[k - 1], j);
        }
      }
    }
  }

  /** A zeroed header marks no slot. */
  lemma ZeroHeaderBits(n: nat)
    ensures forall j :: 0 <= j < 8 * n ==> !SlotUsed(Zeros(n), j)
  {
    var z := Zeros(n);
    forall j | 0 <= j < 8 * n ensures !SlotUsed(z, j) {
      assert z[j / 8] == 0;
    }
  }

  /** Slot i of the header is set exactly when slot i is used, and the
      bits past the last slot are zero. */
  lemma HeaderBits(used: seq<bool>)
    ensures forall j :: 0 <= j < 8 * HeaderSize(|used|) ==>
      SlotUsed(Header(used), j) == (j < |used| && used[j])
  {
    HeaderPrefixBits(used, |used|);
  }

  /** A header is determined by its bits: one that sets exactly the used
      slots and no padding bit is the header of `used`. */
  lemma HeaderDeterminedByBits(used: seq<bool>, h: seq<bv8>)
    requires |h| == HeaderSize(|used|)
    requires forall j :: 0 <= j < 8 * |h| ==> SlotUsed(h, j) == (j < |used| && used[j])
    ensures Header(used) == h
  {
    var g := Header(used);
    HeaderBits(used);
    forall b | 0 <= b < |h| ensures g[b] == h[b] {
      forall k | 0 <= k < 8 ensures Bit(g[b], k) == Bit(h[b], k) {
        var j := 8 * b + k;
        assert j / 8 == b && j % 8 == k;
        assert SlotUsed(g, j) == SlotUsed(h, j);
      }
      SameBitsSameByte(g[b], h[b]);
    }
  }

  /* ---------------------------------------------------------------------
     Ints, big-endian
     --------------------------------------------------------------------- */

  /** The value of a byte, 0 to 255. */
  function Val(x: bv8): (n: nat)
    ensures n < 0x100
  {
    x as int
  }

  /** The byte with value n. */
  function ByteOf(n: nat): (x: bv8)
    requires n < 0x100
  {
    if n == 0 then 0 else ByteOf(n - 1) + 1
  }

  /** ByteOf and Val are inverse to each other. */
  lemma {:induction false} ValOfByteOf(n: nat)
    requires n < 0x100
    ensures Val(ByteOf(n)) == n
  {
    if n > 0 {
      ValOfByteOf(n - 1);
      var y := ByteOf(n - 1);
      assert Val(y + 1) == Val(y) + 1;
    }
  }

  lemma ByteOfVal(x: bv8)
    ensures ByteOf(Val(x)) == x
  {
    ValOfByteOf(Val(x));
    var y := ByteOf(Val(x));
    assert Val(y) == Val(x);
  }

  /** 256 to the power c. */
  function Pow256(c: nat): (p: nat)
    ensures p > 0
  {
    if c == 0 then 1 else 0x100 * Pow256(c - 1)
  }

  /** The unsigned value of bytes, most significant first. */
  function Unsigned(b: seq<bv8>): (u: nat)
  {
    if b == [] then 0 else Unsigned(b[..|b| - 1]) * 0x100 + Val(b[|b| - 1])
  }

  /** The c low base-256 digits of u, most significant first. */
  function BigEndian(u: nat, c: nat): (b: seq<bv8>)
    ensures |b| == c
  {
    if c == 0 then [] else BigEndian(u / 0x100, c - 1) + [ByteOf(u % 0x100)]
  }

  /** c bytes hold any number below 256^c, and give it back. */
  lemma {:induction false} UnsignedOfBigEndian(u: nat, c: nat)
    requires u < Pow256(c)
    ensures Unsigned(BigEndian(u, c)) == u
  {
    if c > 0 {
      var b := BigEndian(u, c);
      var q, r := u / 0x100, u % 0x100;
      assert u == q * 0x100 + r;
      assert q < Pow256(c - 1);
      UnsignedOfBigEndian(q, c - 1);
      ValOfByteOf(r);
      assert b[..c - 1] == BigEndian(q, c - 1);
      assert Val(b[c - 1]) == r;
      assert Unsigned(b) == Unsigned(b[..c - 1]) * 0x100 + Val(b[c - 1]);
    }
  }

  /** Bytes are the big-endian digits of their unsigned value, which is
      below 256^|b|. */
  lemma {:induction false} BigEndianOfUnsigned(b: seq<bv8>)
    ensures Unsigned(b) < Pow256(|b|)
    ensures BigEndian(Unsigned(b), |b|) == b
  {
    if b != [] {
      var n := |b|;
      var init := b[..n - 1];
      BigEndianOfUnsigned(init);
      var u := Unsigned(b);
      DigitStep(Unsigned(init), Val(b[n - 1]));
      assert u / 0x100 == Unsigned(init) && u % 0x100 == Val(b[n - 1]);
      ByteOfVal(b[n - 1]);
      assert b == init + [b[n - 1]];
    }
  }

  /** One base-256 digit step: q * 256 + d, d < 256, has quotient q and
      remainder d. */
  lemma DigitStep(q: nat, d: nat)
    requires d < 0x100
    ensures (q * 0x100 + d) / 0x100 == q && (q * 0x100 + d) % 0x100 == d
  {
  }

  /** The 32 bits of an int read as an unsigned number. */
  function TwosComplement(v: Int32): (u: nat)
    ensures u < INT_MODULUS
  {
    if v >= 0 then v as int else v as int + INT_MODULUS
  }

  /** `DataOutputStream.writeInt`: the two's-complement bits of `v`, most
      significant byte first. */
  function EncodeInt(v: Int32): (b: seq<bv8>)
    ensures |b| == 4
  {
    BigEndian(TwosComplement(v), 4)
  }

  /** `DataInputStream.readInt`: four bytes, most significant first, read
      as a two's-complement int. */
  function DecodeInt(b: seq<bv8>): (v: Int32)
    requires |b| == 4
  {
    BigEndianOfUnsigned(b);
    var u := Unsigned(b);
    if u < 0x8000_0000 then u as Int32 else (u - INT_MODULUS) as Int32
  }

  /** Reading back a written int gives the int. */
  lemma DecodeEncodeInt(v: Int32)
    ensures DecodeInt(EncodeInt(v)) == v
  {
    assert Pow256(4) == INT_MODULUS;
    UnsignedOfBigEndian(TwosComplement(v), 4);
  }

  /** Writing a read int gives back the four bytes. */
  lemma EncodeDecodeInt(b: seq<bv8>)
    requires |b| == 4
    ensures EncodeInt(DecodeInt(b)) == b
  {
    assert Pow256(4) == INT_MODULUS;
    BigEndianOfUnsigned(b);
    assert TwosComplement(DecodeInt(b)) == Unsigned(b);
  }

  /* ---------------------------------------------------------------------
     Tuples and pages
     --------------------------------------------------------------------- */

  /** `serialize` of each field in turn: four bytes per int. */
  function EncodeInts(vs: seq<Int32>): (b: seq<bv8>)
    ensures |b| == 4 * |vs|
  {
    if vs == [] then [] else EncodeInts(vs[..|vs| - 1]) + EncodeInt(vs[|vs| - 1])
  }

  /** `Type.parse` of n INT fields from 4n bytes. */
  function DecodeInts(b: seq<bv8>, n: nat): (vs: seq<Int32>)
    requires |b| == 4 * n
    ensures |vs| == n
  {
    seq(n, j requires 0 <= j < n => DecodeInt(b[4 * j .. 4 * j + 4]))
  }

  /** Field j of an encoded tuple sits at bytes 4j .. 4j + 3. */
  lemma {:induction false} EncodeIntsAt(vs: seq<Int32>, j: nat)
    requires j < |vs|
    ensures EncodeInts(vs)[4 * j .. 4 * j + 4] == EncodeInt(vs[j])
  {
    var init := vs[..|vs| - 1];
    assert EncodeInts(vs) == EncodeInts(init) + EncodeInt(vs[|vs| - 1]);
    if j < |vs| - 1 {
      EncodeIntsAt(init, j);
    }
  }

  /** Field j of a written tuple reads back as its value. */
  lemma DecodeEncodeIntsAt(vs: seq<Int32>, j: nat)
    requires j < |vs|
    ensures DecodeInts(EncodeInts(vs), |vs|)[j] == vs[j]
  {
    var e := EncodeInts(vs);
    var chunk := e[4 * j .. 4 * j + 4];
    assert chunk == EncodeInt(vs[j]) by {
      EncodeIntsAt(vs, j);
    }
    assert DecodeInts(e, |vs|)[j] == DecodeInt(chunk);
    DecodeEncodeInt(vs[j]);
  }

  /** Reading back the fields of a written tuple gives its values. */
  lemma DecodeEncodeInts(vs: seq<Int32>)
    ensures DecodeInts(EncodeInts(vs), |vs|) == vs
  {
    forall j | 0 <= j < |vs| ensures DecodeInts(EncodeInts(vs), |vs|)[j] == vs[j] {
      DecodeEncodeIntsAt(vs, j);
    }
  }

  /** Dropping the last field: the first n - 1 fields are read from the
      bytes before the last four. */
  lemma DecodeIntsInit(b: seq<bv8>, n: nat)
    requires |b| == 4 * n && n > 0
    ensures DecodeInts(b, n)[..n - 1] == DecodeInts(b[..4 * (n - 1)], n - 1)
  {
    var init := b[..4 * (n - 1)];
    var d := DecodeInts(b, n);
    var d0 := DecodeInts(init, n - 1);
    forall j | 0 <= j < n - 1 ensures d[j] == d0[j] {
      assert init[4 * j .. 4 * j + 4] == b[4 * j .. 4 * j + 4];
    }
  }

  /** Writing the fields read from 4n bytes gives back the bytes. */
  lemma {:induction false} EncodeDecodeInts(b: seq<bv8>, n: nat)
    requires |b| == 4 * n
    ensures EncodeInts(DecodeInts(b, n)) == b
  {
    if n > 0 {
      var vs := DecodeInts(b, n);
      var init := b[..4 * (n - 1)];
      var last := b[4 * (n - 1)..];
      assert EncodeInts(vs[..n - 1]) == init by {
        DecodeIntsInit(b, n);
        EncodeDecodeInts(init, n - 1);
      }
      assert EncodeInt(vs[n - 1]) == last by {
        EncodeDecodeIntsLast(b, n);
        EncodeDecodeInt(last);
      }
      assert EncodeInts(vs) == EncodeInts(vs[..n - 1]) + EncodeInt(vs[n - 1]);
      SplitTwo(b, 4 * (n - 1));
    }
  }

  /** The tuple written from fields read off 4n bytes ends in the last four. */
  lemma EncodeDecodeIntsLast(b: seq<bv8>, n: nat)
    requires |b| == 4 * n && n > 0
    ensures DecodeInts(b, n)[n - 1] == DecodeInt(b[4 * (n - 1)..])
  {
    assert b[4 * (n - 1) .. 4 * (n - 1) + 4] == b[4 * (n - 1)..];
  }

  /** w * k, by repeated addition. */
  function Mul(w: nat, k: nat): nat
  {
    if k == 0 then 0 else Mul(w, k - 1) + w
  }

  /** Mul is monotone in its second argument. */
  lemma {:induction false} MulMono(w: nat, k: nat, count: nat)
    requires k <= count
    ensures Mul(w, k) <= Mul(w, count)
  {
    if k < count {
      MulMono(w, k, count - 1);
    }
  }

  /** Mul is multiplication. */
  lemma {:induction false} MulIsProduct(w: nat, k: nat)
    ensures Mul(w, k) == w * k
  {
    if k > 0 {
      MulIsProduct(w, k - 1);
    }
  }

  /** The w bytes of slot k, in a run of `count` slots starting at `start`. */
  function SlotAt(b: seq<bv8>, start: nat, w: nat, k: nat, count: nat): (r: seq<bv8>)
    requires k < count && start + Mul(w, count) <= |b|
    ensures |r| == w
  {
    MulMono(w, k + 1, count);
    b[start + Mul(w, k) .. start + Mul(w, k) + w]
  }

  /** Slot k lies within the first `count` slots whatever follows them. */
  lemma SlotAtPrefix(b: seq<bv8>, start: nat, w: nat, k: nat, count: nat, m: nat)
    requires k < count <= m && start + Mul(w, count) <= start + Mul(w, m) <= |b|
    ensures SlotAt(b[..start + Mul(w, count)], start, w, k, count) == SlotAt(b, start, w, k, m)
  {
    MulMono(w, count, m);
    MulMono(w, k + 1, count);
  }

  /** Slot k of a run inside `b` is slot k of the run cut out of `b`. */
  lemma SlotAtShift(b: seq<bv8>, start: nat, w: nat, k: nat, count: nat)
    requires k < count && start + Mul(w, count) <= |b|
    ensures SlotAt(b[start .. start + Mul(w, count)], 0, w, k, count) == SlotAt(b, start, w, k, count)
  {
    MulMono(w, k + 1, count);
  }

  /** Every stored tuple has the page's `nfields` fields. */
  predicate Fits(slots: seq<SlotImage>, nfields: nat)
  {
    forall k :: 0 <= k < |slots| && slots[k].Some? ==> |slots[k].value| == nfields
  }

  /** The bytes of one slot: the tuple's fields, or zeros for an empty slot. */
  function SlotBytes(s: SlotImage, nfields: nat): (b: seq<bv8>)
    requires s.Some? ==> |s.value| == nfields
    ensures |b| == 4 * nfields
  {
    match s
    case None => Zeros(4 * nfields)
    case Some(vs) => EncodeInts(vs)
  }

  /** The slots written out in order. */
  function Payload(slots: seq<SlotImage>, nfields: nat): (b: seq<bv8>)
    requires Fits(slots, nfields)
    ensures |b| == Mul(4 * nfields, |slots|)
  {
    if slots == [] then []
    else Payload(slots[..|slots| - 1], nfields) + SlotBytes(slots[|slots| - 1], nfields)
  }

  /** Slot k of the payload holds the bytes of slot k. */
  lemma {:induction false} PayloadAt(slots: seq<SlotImage>, nfields: nat, k: nat)
    requires Fits(slots, nfields) && k < |slots|
    ensures SlotAt(Payload(slots, nfields), 0, 4 * nfields, k, |slots|) == SlotBytes(slots[k], nfields)
  {
    var w := 4 * nfields;
    var n := |slots|;
    var p := Payload(slots, nfields);
    var cut := Mul(w, n - 1);
    var init := Payload(slots[..n - 1], nfields);
    assert p == init + SlotBytes(slots[n - 1], nfields);
    assert p[..cut] == init;
    if k < n - 1 {
      PayloadAt(slots[..n - 1], nfields, k);
      MulMono(w, n - 1, n);
      SlotAtPrefix(p, 0, w, k, n - 1, n);
    } else {
      assert SlotAt(p, 0, w, k, n) == p[cut..];
    }
  }

  /** Bytes `p` hold, at the place of each slot, that slot's bytes. */
  predicate SlotsHold(p: seq<bv8>, slots: seq<SlotImage>, nfields: nat)
    requires Fits(slots, nfields) && |p| == Mul(4 * nfields, |slots|)
  {
    forall k :: 0 <= k < |slots| ==> SlotAt(p, 0, 4 * nfields, k, |slots|) == SlotBytes(slots[k], nfields)
  }

  /** A payload is determined by its slots: bytes that hold each slot's
      bytes at its place are the payload. */
  lemma {:induction false} PayloadDetermined(slots: seq<SlotImage>, nfields: nat, p: seq<bv8>)
    requires Fits(slots, nfields) && |p| == Mul(4 * nfields, |slots|)
    requires SlotsHold(p, slots, nfields)
    ensures Payload(slots, nfields) == p
  {
    var w := 4 * nfields;
    var n := |slots|;
    if n > 0 {
      var cut := Mul(w, n - 1);
      PrefixSlots(slots, nfields, p);
      PayloadDetermined(slots[..n - 1], nfields, p[..cut]);
      LastSlot(p, w, n);
      SplitTwo(p, cut);
    }
  }

  /** The last of n slots filling `p` is everything after the first n - 1. */
  lemma LastSlot(p: seq<bv8>, w: nat, n: nat)
    requires n > 0 && |p| == Mul(w, n)
    ensures SlotAt(p, 0, w, n - 1, n) == p[Mul(w, n - 1)..]
  {
  }

  /** Cutting a sequence in two places and joining the parts gives it back. */
  lemma SplitTwo(b: seq<bv8>, i: nat)
    requires i <= |b|
    ensures b[..i] + b[i..] == b
  {
  }

  /** Bytes holding n slots hold, in their first n - 1 slots, the first
      n - 1 slots. */
  lemma PrefixSlots(slots: seq<SlotImage>, nfields: nat, p: seq<bv8>)
    requires Fits(slots, nfields) && |slots| > 0 && |p| == Mul(4 * nfields, |slots|)
    requires SlotsHold(p, slots, nfields)
    ensures SlotsHold(p[..Mul(4 * nfields, |slots| - 1)], slots[..|slots| - 1], nfields)
  {
    var w := 4 * nfields;
    var n := |slots|;
    var init := slots[..n - 1];
    var q := p[..Mul(w, n - 1)];
    MulMono(w, n - 1, n);
    forall k | 0 <= k < n - 1
      ensures SlotAt(q, 0, w, k, n - 1) == SlotBytes(init[k], nfields)
    {
      SlotAtPrefix(p, 0, w, k, n - 1, n);
    }
  }

  /** Header, payload and zero padding fit in the page. */
  predicate FitsPage(numSlots: nat, nfields: nat, pageSize: nat)
  {
    PayloadEnd(numSlots, nfields) <= pageSize
  }

  /** Where the padding starts: after the header and `numSlots` slots. */
  function PayloadEnd(numSlots: nat, nfields: nat): (end: nat)
    ensures HeaderSize(numSlots) <= end
  {
    HeaderSize(numSlots) + Mul(4 * nfields, numSlots)
  }

  /** The bytes of the slots, between the header and the padding. */
  function PayloadBytes(b: seq<bv8>, numSlots: nat, nfields: nat): (p: seq<bv8>)
    requires FitsPage(numSlots, nfields, |b|)
    ensures |p| == Mul(4 * nfields, numSlots)
  {
    b[HeaderSize(numSlots) .. PayloadEnd(numSlots, nfields)]
  }

  /** `pageToBytes`: the header, every slot in order, then zeros up to the
      page size. */
  function EncodePage(slots: seq<SlotImage>, nfields: nat, pageSize: nat): (b: seq<bv8>)
    requires Fits(slots, nfields) && FitsPage(|slots|, nfields, pageSize)
    ensures |b| == pageSize
  {
    var header := Header(UsedBits(slots));
    var body := Payload(slots, nfields);
    header + body + Zeros(pageSize - |header| - |body|)
  }

  /** `bytesToPage`: slot k holds a tuple exactly when its header bit is set,
      and then the tuple's fields are read from slot k's bytes. */
  function DecodePage(b: seq<bv8>, numSlots: nat, nfields: nat): (slots: seq<SlotImage>)
    requires FitsPage(numSlots, nfields, |b|)
    ensures |slots| == numSlots && Fits(slots, nfields)
  {
    var hs := HeaderSize(numSlots);
    seq(numSlots, k requires 0 <= k < numSlots =>
      if SlotUsed(b[..hs], k) then Some(DecodeInts(SlotAt(b, hs, 4 * nfields, k, numSlots), nfields)) else None)
  }

  /** Page bytes as `pageToBytes` writes them: no header bit past the last
      slot, zeros in every empty slot and in the padding. */
  predicate Canonical(b: seq<bv8>, numSlots: nat, nfields: nat)
  {
    var hs := HeaderSize(numSlots);
    var w := 4 * nfields;
    && FitsPage(numSlots, nfields, |b|)
    && (forall j :: numSlots <= j < 8 * hs ==> !SlotUsed(b[..hs], j))
    && (forall k :: 0 <= k < numSlots && !SlotUsed(b[..hs], k) ==> SlotAt(b, hs, w, k, numSlots) == Zeros(w))
    && (forall i :: PayloadEnd(numSlots, nfields) <= i < |b| ==> b[i] == 0)
  }

  /** The header, payload and padding of an encoded page are where the
      layout puts them. */
  lemma EncodePageParts(slots: seq<SlotImage>, nfields: nat, pageSize: nat)
    requires Fits(slots, nfields) && FitsPage(|slots|, nfields, pageSize)
    ensures var b := EncodePage(slots, nfields, pageSize);
      var hs := HeaderSize(|slots|);
      && b[..hs] == Header(UsedBits(slots))
      && PayloadBytes(b, |slots|, nfields) == Payload(slots, nfields)
  {
  }

  /** Slot k of a written page reads back as slot k. */
  lemma DecodeEncodeSlot(slots: seq<SlotImage>, nfields: nat, pageSize: nat, k: nat)
    requires Fits(slots, nfields) && FitsPage(|slots|, nfields, pageSize) && k < |slots|
    ensures DecodePage(EncodePage(slots, nfields, pageSize), |slots|, nfields)[k] == slots[k]
  {
    var n := |slots|;
    var w := 4 * nfields;
    var hs := HeaderSize(n);
    var b := EncodePage(slots, nfields, pageSize);
    EncodePageParts(slots, nfields, pageSize);
    HeaderBits(UsedBits(slots));
    assert SlotUsed(b[..hs], k) == slots[k].Some?;
    SlotAtShift(b, hs, w, k, n);
    PayloadAt(slots, nfields, k);
    if slots[k].Some? {
      DecodeEncodeInts(slots[k].value);
    }
  }

  /** Reading a written page gives back its slots. */
  lemma DecodeEncodePage(slots: seq<SlotImage>, nfields: nat, pageSize: nat)
    requires Fits(slots, nfields) && FitsPage(|slots|, nfields, pageSize)
    ensures DecodePage(EncodePage(slots, nfields, pageSize), |slots|, nfields) == slots
  {
    forall k | 0 <= k < |slots|
      ensures DecodePage(EncodePage(slots, nfields, pageSize), |slots|, nfields)[k] == slots[k]
    {
      DecodeEncodeSlot(slots, nfields, pageSize, k);
    }
  }

  /** Slot k of canonical page bytes is the encoding of the slot read from it. */
  lemma EncodeDecodeSlot(b: seq<bv8>, numSlots: nat, nfields: nat, k: nat)
    requires Canonical(b, numSlots, nfields) && k < numSlots
    ensures SlotAt(PayloadBytes(b, numSlots, nfields), 0, 4 * nfields, k, numSlots)
        == SlotBytes(DecodePage(b, numSlots, nfields)[k], nfields)
  {
    var hs := HeaderSize(numSlots);
    var w := 4 * nfields;
    var bytes := SlotAt(b, hs, w, k, numSlots);
    assert SlotAt(PayloadBytes(b, numSlots, nfields), 0, w, k, numSlots) == bytes by {
      SlotAtShift(b, hs, w, k, numSlots);
    }
    var slot := DecodePage(b, numSlots, nfields)[k];
    if SlotUsed(b[..hs], k) {
      assert slot == Some(DecodeInts(bytes, nfields));
      EncodeDecodeInts(bytes, nfields);
    } else {
      assert slot == None;
      assert bytes == Zeros(w);
    }
  }

  /** Writing the slots read from canonical page bytes gives back the bytes. */
  lemma EncodeDecodePage(b: seq<bv8>, numSlots: nat, nfields: nat)
    requires Canonical(b, numSlots, nfields)
    ensures EncodePage(DecodePage(b, numSlots, nfields), nfields, |b|) == b
  {
    EncodeDecodeHeader(b, numSlots, nfields);
    DecodedSlotsHold(b, numSlots, nfields);
    PaddingIsZeros(b, PayloadEnd(numSlots, nfields));
    EncodePageFrom(DecodePage(b, numSlots, nfields), numSlots, nfields, b);
  }

  /** Bytes that are zero from `end` on end in zeros. */
  lemma PaddingIsZeros(b: seq<bv8>, end: nat)
    requires end <= |b| && forall i :: end <= i < |b| ==> b[i] == 0
    ensures b[end..] == Zeros(|b| - end)
  {
  }

  /** Bytes holding the slots' header, then each slot's bytes at its place,
      then zeros, are the slots' encoding. */
  lemma EncodePageFrom(slots: seq<SlotImage>, numSlots: nat, nfields: nat, b: seq<bv8>)
    requires |slots| == numSlots && Fits(slots, nfields) && FitsPage(numSlots, nfields, |b|)
    requires Header(UsedBits(slots)) == b[..HeaderSize(numSlots)]
    requires SlotsHold(PayloadBytes(b, numSlots, nfields), slots, nfields)
    requires b[PayloadEnd(numSlots, nfields)..] == Zeros(|b| - PayloadEnd(numSlots, nfields))
    ensures EncodePage(slots, nfields, |b|) == b
  {
    PayloadDetermined(slots, nfields, PayloadBytes(b, numSlots, nfields));
    SplitThree(b, HeaderSize(numSlots), PayloadEnd(numSlots, nfields));
  }

  /** The payload bytes of canonical page bytes hold, at each slot's place,
      the encoding of the slot read from them. */
  lemma DecodedSlotsHold(b: seq<bv8>, numSlots: nat, nfields: nat)
    requires Canonical(b, numSlots, nfields)
    ensures SlotsHold(PayloadBytes(b, numSlots, nfields), DecodePage(b, numSlots, nfields), nfields)
  {
    var n := numSlots;
    var w := 4 * nfields;
    var slots := DecodePage(b, n, nfields);
    var p := PayloadBytes(b, n, nfields);
    forall k | 0 <= k < n ensures SlotAt(p, 0, w, k, n) == SlotBytes(slots[k], nfields) {
      EncodeDecodeSlot(b, n, nfields, k);
    }
  }

  /** The header of the slots read from canonical page bytes is the bytes' header. */
  lemma EncodeDecodeHeader(b: seq<bv8>, numSlots: nat, nfields: nat)
    requires Canonical(b, numSlots, nfields)
    ensures Header(UsedBits(DecodePage(b, numSlots, nfields))) == b[..HeaderSize(numSlots)]
  {
    var hs := HeaderSize(numSlots);
    var used := UsedBits(DecodePage(b, numSlots, nfields));
    HeaderDeterminedByBits(used, b[..hs]);
  }

  /** Cutting a sequence in three places and joining the parts gives it back. */
  lemma SplitThree(b: seq<bv8>, i: nat, j: nat)
    requires i <= j <= |b|
    ensures b[..i] + b[i..j] + b[j..] == b
  {
  }

  /* ---------------------------------------------------------------------
     Writing and reading a buffer slot by slot
     --------------------------------------------------------------------- */

  /** `pageToBytes`: mark every slot in a zeroed header, write the header,
      then each slot's fields (or zeros for an empty slot), then zeros up to
      the page size. The page is given by its slots' contents. */
  method PageToBytes(slots: seq<SlotImage>, nfields: nat, pageSize: nat) returns (bytes: seq<bv8>)
    requires Fits(slots, nfields) && FitsPage(|slots|, nfields, pageSize)
    ensures bytes == EncodePage(slots, nfields, pageSize)
  {
    var header := WriteHeader(UsedBits(slots));
    var payload := WritePayload(slots, nfields);
    bytes := header + payload + Zeros(pageSize - |header| - |payload|);
  }

  /** The slots, one after another in slot order. */
  method WritePayload(slots: seq<SlotImage>, nfields: nat) returns (bytes: seq<bv8>)
    requires Fits(slots, nfields)
    ensures bytes == Payload(slots, nfields)
  {
    bytes := [];
    for k := 0 to |slots|
      invariant bytes == Payload(slots[..k], nfields)
    {
      var slotBytes := WriteSlot(slots[k], nfields);
      var next := slots[..k + 1];
      assert next[..k] == slots[..k] && next[k] == slots[k];
      bytes := bytes + slotBytes;
    }
    assert slots[..|slots|] == slots;
  }

  /** The header: a zeroed bitmap with every slot marked in turn. */
  method WriteHeader(used: seq<bool>) returns (h: seq<bv8>)
    ensures h == Header(used)
  {
    var header := new bv8[HeaderSize(|used|)](_ => 0);
    for i := 0 to |used|
      invariant header[..] == HeaderPrefix(used, i)
    {
      MarkSlot(i, header, used[i]);
    }
    h := header[..];
  }

  /** The bytes of one slot, field by field. */
  method WriteSlot(s: SlotImage, nfields: nat) returns (bytes: seq<bv8>)
    requires s.Some? ==> |s.value| == nfields
    ensures bytes == SlotBytes(s, nfields)
  {
    if s.None? {
      return Zeros(4 * nfields);
    }
    var vs := s.value;
    bytes := [];
    for j := 0 to |vs|
      invariant bytes == EncodeInts(vs[..j])
    {
      assert vs[..j + 1][..j] == vs[..j];
      bytes := bytes + EncodeInt(vs[j]);
    }
    assert vs[..|vs|] == vs;
  }

  /** `bytesToPage`: read the header, then for each slot whose bit is set
      read its fields; bytes too short for the header and the slots are an
      error. */
  method BytesToPage(bytes: seq<bv8>, numSlots: nat, nfields: nat) returns (r: Result<seq<SlotImage>>)
    ensures r.Ok? <==> FitsPage(numSlots, nfields, |bytes|)
    ensures r.Ok? ==> r.value == DecodePage(bytes, numSlots, nfields)
    ensures r.Fail? ==> r.error == PageError
  {
    if !FitsPage(numSlots, nfields, |bytes|) {
      return Fail(PageError);
    }
    var hs := HeaderSize(numSlots);
    var header := bytes[..hs];
    var slots: seq<SlotImage> := [];
    for k := 0 to numSlots
      invariant |slots| == k
      invariant forall m :: 0 <= m < k ==> slots[m] == DecodePage(bytes, numSlots, nfields)[m]
    {
      var slot: SlotImage := None;
      if SlotUsed(header, k) {
        var vs := ReadSlot(SlotAt(bytes, hs, 4 * nfields, k, numSlots), nfields);
        slot := Some(vs);
      }
      slots := slots + [slot];
    }
    return Ok(slots);
  }

  /** The fields of one used slot, read four bytes at a time. */
  method ReadSlot(chunk: seq<bv8>, nfields: nat) returns (vs: seq<Int32>)
    requires |chunk| == 4 * nfields
    ensures vs == DecodeInts(chunk, nfields)
  {
    vs := [];
    for j := 0 to nfields
      invariant |vs| == j
      invariant forall m :: 0 <= m < j ==> vs[m] == DecodeInts(chunk, nfields)[m]
    {
      vs := vs + [DecodeInt(chunk[4 * j .. 4 * j + 4])];
    }
  }
}
