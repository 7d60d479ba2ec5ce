/**
 The parameter structures of the batch calls.  A parameter's `base` is a pointer-sized
 word: integer types keep the number itself in it, blob types an address.
 */
module RpcParams {
  import opened Bytes
  import opened RpcFormat

  /** `Word` is a 64-bit `ptrdiff_t`; `Ptr` is the address of a byte of some memory block. */
  datatype Base = Null | Word(w: int) | Ptr(mem: array<byte>, off: nat)

  datatype Param = Param(base: Base, kind: u32)

  /** The type word that is sent: the low half of the 32-bit field. */
  function SentKind(p: Param): (t: u16) {
    p.kind % 0x1_0000
  }

  /**
   What the caller owes for a parameter it passes in: an integer type holds a number,
   a blob type is null or points at enough memory.
   */
  predicate Readable(p: Param) {
    if IsInteger(SentKind(p)) then p.base.Word?
    else p.base.Null? || (p.base.Ptr? && p.base.off + SizeOfType(SentKind(p)) <= p.base.mem.Length)
  }

  /** A value truncated to a width and read as a signed number of that width. */
  function TwosComplement(v: int, width: int): (n: int)
    ensures n % Modulus(width) == v % Modulus(width)
  {
    var u := v % Modulus(width);
    if u >= Modulus(width) / 2 then u - Modulus(width) else u
  }

  /** The number the `AF_RPC_GET_..._PARAM` cast for this type takes out of a base word. */
  function ReadWord(kind: u16, w: int): (n: int)
    requires ValidType(kind) && IsInteger(kind)
  {
    ValidTypeTests(kind);
    if IsSigned(kind) then TwosComplement(w, SizeOfType(kind)) else w % Modulus(SizeOfType(kind))
  }

  /** The data bytes an integer parameter is sent as. */
  function IntegerData(kind: u16, w: int): (s: seq<byte>)
    requires ValidType(kind) && IsInteger(kind)
    ensures Tlv(kind, s).Valid()
  {
    ValidTypeTests(kind);
    BE(w % Modulus(SizeOfType(kind)), SizeOfType(kind))
  }

  /** The number an integer parameter of a message stands for, at its own width and sign. */
  function IntegerValue(t: Tlv): (n: int)
    requires t.Valid() && IsInteger(t.kind)
  {
    ValidTypeTests(t.kind);
    if IsSigned(t.kind) then TwosComplement(FromBE(t.data), |t.data|) else FromBE(t.data)
  }

  /**
   The word the batch decoder leaves in `base`: INT8 is widened to the whole word,
   INT16 only to 32 bits, and INT32 not at all.
   */
  function DecodedWord(t: Tlv): (w: int)
    requires t.Valid() && IsInteger(t.kind)
  {
    ValidTypeTests(t.kind);
    var v := FromBE(t.data);
    if t.kind == TYPE_INT8 then (if v >= 0x80 then v - 0x100 else v)
    else if t.kind == TYPE_INT16 then (if v >= 0x8000 then v + 0xFFFF_0000 else v)
    else v
  }

  /** The sign bit of an integer is the top bit of its first byte. */
  lemma TopBit(s: seq<byte>)
    requires |s| == 1 || |s| == 2 || |s| == 4
    ensures FromBE(s) >= Modulus(|s|) / 2 <==> s[0] >= 0x80
  {
  }

  lemma SignedKinds(kind: u16)
    requires ValidType(kind) && IsInteger(kind)
    ensures IsSigned(kind) <==> kind in {TYPE_INT8, TYPE_INT16, TYPE_INT32}
    ensures kind == TYPE_INT8 ==> SizeOfType(kind) == 1
    ensures kind == TYPE_INT16 ==> SizeOfType(kind) == 2
    ensures kind == TYPE_INT32 ==> SizeOfType(kind) == 4
  {
  }

  lemma DecodedWordMod(t: Tlv)
    requires t.Valid() && IsInteger(t.kind)
    ensures |t.data| in {1, 2, 4} && DecodedWord(t) % Modulus(|t.data|) == FromBE(t.data)
  {
    hide BE, FromBE, ValidType, SizeOfType, IsInteger, IsSigned;
    ValidTypeTests(t.kind);
    SignedKinds(t.kind);
    var v := FromBE(t.data);
    if t.kind == TYPE_INT16 && v >= 0x8000 {
      assert (v + 0xFFFF * 0x1_0000) % 0x1_0000 == v;
    }
  }

  lemma TruncateTwice(w: int, width: int)
    ensures w % Modulus(width) % Modulus(width) == w % Modulus(width)
    ensures TwosComplement(w % Modulus(width), width) == TwosComplement(w, width)
  {
  }

  /** Sending a word and reading it back gives the same number at the declared width and sign. */
  lemma IntegerRoundTrip(kind: u16, w: int)
    requires ValidType(kind) && IsInteger(kind)
    ensures IntegerValue(Tlv(kind, IntegerData(kind, w))) == ReadWord(kind, w)
    ensures ReadWord(kind, DecodedWord(Tlv(kind, IntegerData(kind, w)))) == ReadWord(kind, w)
  {
    hide BE, FromBE, ValidType, SizeOfType, IsInteger, IsSigned, TwosComplement, DecodedWord;
    ValidTypeTests(kind);
    var t := Tlv(kind, IntegerData(kind, w));
    TruncateTwice(w, SizeOfType(kind));
    FromBEOfBE(w % Modulus(SizeOfType(kind)), SizeOfType(kind));
    DecodedWordReadsBack(t);
  }

  /** The numbers an integer type is for. */
  predicate InOwnRange(kind: u16, w: int) {
    match kind
    case 0x9000 => 0 <= w < 256
    case 0xA000 => 0 <= w < 65536
    case 0xB000 => 0 <= w < 4294967296
    case 0xD000 => -128 <= w < 128
    case 0xE000 => -32768 <= w < 32768
    case 0xF000 => -2147483648 <= w < 2147483648
    case _ => false
  }

  /** Every number in a type's own range survives: the cast takes out what was put in. */
  lemma OwnRangeSurvives(kind: u16, w: int)
    requires InOwnRange(kind, w)
    ensures ValidType(kind) && IsInteger(kind) && ReadWord(kind, w) == w
    ensures IntegerValue(Tlv(kind, IntegerData(kind, w))) == w
  {
    hide ValidType, SizeOfType, IsInteger, IsSigned, TwosComplement, IntegerData, IntegerValue;
    TypeWords(kind);
    TwosComplementSurvives(kind, w);
    IntegerRoundTrip(kind, w);
  }

  lemma TwosComplementSurvives(kind: u16, w: int)
    requires InOwnRange(kind, w)
    ensures kind == 0xD000 ==> TwosComplement(w, 1) == w
    ensures kind == 0xE000 ==> TwosComplement(w, 2) == w
    ensures kind == 0xF000 ==> TwosComplement(w, 4) == w
  {
  }

  /**
   A number in a type's own range is sent in as many bytes as the type says, most significant
   first, negative ones in two's complement.
   */
  lemma IntegerBytes(kind: u16, w: int)
    requires InOwnRange(kind, w)
    ensures ValidType(kind) && IsInteger(kind)
    ensures var s := IntegerData(kind, w);
      && |s| == (if kind in {0x9000, 0xD000} then 1 else if kind in {0xA000, 0xE000} then 2 else 4)
      && MostSignificantFirst(s) == if w >= 0 then w
         else if kind == 0xD000 then 256 + w else if kind == 0xE000 then 65536 + w else 4294967296 + w
  {
    hide BE, ValidType, SizeOfType, IsInteger;
    TypeWords(kind);
    var size := SizeOfType(kind);
    BEIsMostSignificantFirst(w % Modulus(size), size);
  }

  /** The cast of the decoded word is the number sent, and sending it again sends the same bytes. */
  lemma DecodedWordReadsBack(t: Tlv)
    requires t.Valid() && IsInteger(t.kind)
    ensures ReadWord(t.kind, DecodedWord(t)) == IntegerValue(t)
    ensures IntegerData(t.kind, DecodedWord(t)) == t.data
  {
    hide BE, FromBE, DecodedWord;
    DecodedWordMod(t);
    BEOfFromBE(t.data);
  }

  /**
   Without the cast the word is the number exactly when the type is unsigned or INT8
   or the number is not negative: the other two signed types are not widened fully.
   */
  lemma DecodedWordIsValueIff(t: Tlv)
    requires t.Valid() && IsInteger(t.kind)
    ensures |t.data| > 0
    ensures DecodedWord(t) == IntegerValue(t)
       <==> (t.kind in {TYPE_INT16, TYPE_INT32} ==> t.data[0] < 0x80)
  {
    hide BE, FromBE, ValidType, SizeOfType, IsInteger, IsSigned;
    ValidTypeTests(t.kind);
    SignedKinds(t.kind);
    TopBit(t.data);
    InRange(FromBE(t.data), |t.data|);
  }

  /** The INT16 -1 is one it does not hold of: the word is 4294967295. */
  lemma Int16MinusOne()
    ensures var t := Tlv(TYPE_INT16, [0xFF, 0xFF]);
      t.Valid() && DecodedWord(t) == 0xFFFF_FFFF && IntegerValue(t) == -1
  {
    var t := Tlv(TYPE_INT16, [0xFF, 0xFF]);
    assert FromBE(t.data) == 0xFFFF;
    SignedKinds(TYPE_INT16);
  }

  lemma InRange(v: int, width: int)
    requires 0 <= v < Modulus(width)
    ensures TwosComplement(v, width) == if v >= Modulus(width) / 2 then v - Modulus(width) else v
  {
  }

  /** The memory blocks the blobs of a parameter list live in. */
  ghost function Memory(ps: seq<Param>): set<array<byte>> {
    set p <- ps | p.base.Ptr? :: p.base.mem
  }

  /** A parameter that can be sent, if there is room for it. */
  predicate CanSend(p: Param) {
    ValidType(SentKind(p)) && Readable(p) && (p.base.Null? ==> SizeOfType(SentKind(p)) == 0)
  }

  /** What a parameter means: its type word and the bytes it stands for. */
  ghost function TlvOf(p: Param): (t: Tlv)
    reads if p.base.Ptr? then {p.base.mem} else {}
    ensures CanSend(p) ==> t.Valid() && |t.data| == SizeOfType(SentKind(p))
  {
    var kind := SentKind(p);
    ValidTypeTests(kind);
    if !CanSend(p) || p.base.Null? then Tlv(kind, [])
    else if IsInteger(kind) then Tlv(kind, IntegerData(kind, p.base.w))
    else Tlv(kind, p.base.mem[p.base.off..p.base.off + SizeOfType(kind)])
  }

  predicate Sendable(ps: seq<Param>) {
    forall p <- ps :: CanSend(p)
  }

  ghost function TlvsOf(ps: seq<Param>): (ts: seq<Tlv>)
    reads Memory(ps)
    ensures |ts| == |ps|
    ensures forall i :: 0 <= i < |ps| ==> ts[i] == TlvOf(ps[i])
    ensures Sendable(ps) ==> AllValid(ts)
  {
    if ps == [] then [] else
      assert forall p <- ps[1..] :: p in ps;
      [TlvOf(ps[0])] + TlvsOf(ps[1..])
  }
}
