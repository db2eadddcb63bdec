/** Length-prefixed messages in a file, as protolib.py frames them
    ("Base 128 Varints" in the Protocol Buffers encoding specification). */
module Varint {

  type Byte = b: int | 0 <= b < 256

  // ----- numbers -----

  function Pow128(k: nat): (p: nat)
    ensures p > 0
  {
    if k == 0 then 1 else 128 * Pow128(k - 1)
  }

  /** Seven bits to a byte, the lowest first; all bytes but the last are marked. */
  function Encode(v: nat): (s: seq<Byte>)
    ensures s != []
  {
    if v < 128 then [v] else [128 + v % 128] + Encode(v / 128)
  }

  /** The number that bytes stand for. */
  function Value(s: seq<Byte>): nat {
    if s == [] then 0 else (var b: int := s[0]; b % 128) + 128 * Value(s[1..])
  }

  /** Where the bytes of a number end. */
  datatype Span = NoEnd | TooLong | Span(length: nat)

  /** From byte number k on, the first that is not marked; a number may take ten bytes, since seven times ten is the
      first shift of 64 or more. */
  function SpanOf(data: seq<Byte>, start: nat, k: nat): (s: Span)
    requires k < 10
    ensures s.Span? ==> k < s.length <= 10 && start + s.length <= |data|
    ensures s.TooLong? ==> start + 10 <= |data|
    decreases 10 - k
  {
    if start + k >= |data| then NoEnd
    else if data[start + k] < 128 then Span(k + 1)
    else if (k + 1) * 7 >= 64 then TooLong
    else SpanOf(data, start, k + 1)
  }

  datatype Decoded = Eof | TooMany | Number(value: int, length: nat)

  /** The 32-bit mask at the end of _DecodeVarint32. */
  function Masked(v: int): int {
    if v > 0x7fff_ffff_ffff_ffff then v % 0x1_0000_0000 - 0x1_0000_0000 else v % 0x1_0000_0000
  }

  /** _DecodeVarint32. */
  function Decode(data: seq<Byte>, start: nat): (d: Decoded)
    ensures d.Number? ==> 0 < d.length && start + d.length <= |data|
    ensures d.TooMany? ==> start + 10 <= |data|
  {
    match SpanOf(data, start, 0)
    case NoEnd => Eof
    case TooLong => TooMany
    case Span(n) => Number(Masked(Value(data[start..start + n])), n)
  }

  /** The bytes at a place are those of s. */
  ghost predicate Holds(data: seq<Byte>, at: nat, s: seq<Byte>) {
    at + |s| <= |data| && data[at..at + |s|] == s
  }

  lemma HoldsConcat(data: seq<Byte>, at: nat, a: seq<Byte>, b: seq<Byte>)
    ensures Holds(data, at, a + b) <==> Holds(data, at, a) && Holds(data, at + |a|, b)
  {
    if at + |a| + |b| <= |data| {
      var both := data[at..at + |a| + |b|];
      assert both[..|a|] == data[at..at + |a|] && both[|a|..] == data[at + |a|..at + |a| + |b|];
      assert both == both[..|a|] + both[|a|..];
    }
  }

  /** The high bit is set on every byte of an encoded number but the last, and the last is not a needless zero. */
  lemma {:induction false} EncodedBytes(v: nat, k: nat)
    requires k < |Encode(v)|
    ensures Encode(v)[k] >= 128 <==> k + 1 < |Encode(v)|
    ensures 0 < k == |Encode(v)| - 1 ==> Encode(v)[k] != 0
    decreases k
  {
    if k > 0 {
      EncodedBytes(v / 128, k - 1);
    }
  }

  /** How the bytes of a number are found: up to the first whose high bit is not set, if that is among the first ten;
      ten bytes with the bit set are too many, and fewer are an end of file. */
  lemma {:induction false} SpanIs(data: seq<Byte>, start: nat, k: nat)
    requires k < 10 && start + k <= |data| && forall j | start <= j < start + k :: data[j] >= 128
    ensures match SpanOf(data, start, k)
      case Span(n) => data[start + n - 1] < 128 && forall j | start <= j < start + n - 1 :: data[j] >= 128
      case TooLong => forall j | start <= j < start + 10 :: data[j] >= 128
      case NoEnd => |data| < start + 10 && forall j | start <= j < |data| :: data[j] >= 128
    decreases 10 - k
  {
    if start + k < |data| && data[start + k] >= 128 && k < 9 {
      SpanIs(data, start, k + 1);
    }
  }

  lemma {:induction false} ValueEncode(v: nat)
    ensures Value(Encode(v)) == v
  {
    if v >= 128 {
      ValueEncode(v / 128);
      assert Encode(v)[1..] == Encode(v / 128);
    }
  }

  lemma {:induction false} SpanEncode(data: seq<Byte>, start: nat, k: nat, v: nat)
    requires k < 10 && Holds(data, start + k, Encode(v))
    ensures SpanOf(data, start, k) == if k + |Encode(v)| <= 10 then Span(k + |Encode(v)|) else TooLong
    decreases v
  {
    assert data[start + k] == data[start + k..start + k + |Encode(v)|][0];
    if v >= 128 && k < 9 {
      HoldsConcat(data, start + k, [128 + v % 128], Encode(v / 128));
      SpanEncode(data, start, k + 1, v / 128);
    }
  }

  /** Ten bytes hold 70 bits. */
  lemma {:induction false} EncodedLength(v: nat, k: nat)
    ensures |Encode(v)| <= k + 1 <==> v < Pow128(k + 1)
    decreases k
  {
    if k == 0 {
      assert Pow128(1) == 128 * Pow128(0);
    } else if v >= 128 {
      EncodedLength(v / 128, k - 1);
      assert v / 128 < Pow128(k) <==> v < 128 * Pow128(k);
    } else {
      assert Pow128(k + 1) == 128 * Pow128(k);
    }
  }

  lemma Pow128Ten()
    ensures Pow128(10) == 0x40_0000_0000_0000_0000
  {
    assert Pow128(5) == 0x8_0000_0000;
    assert Pow128(7) == 0x2_0000_0000_0000;
  }

  /** The whole picture: exact below 2^32, the low 32 bits below 2^63, negative below 2^70, refused from there on. */
  lemma DecodeIs(data: seq<Byte>, start: nat, v: nat)
    requires Holds(data, start, Encode(v))
    ensures Decode(data, start) ==
      if v >= 0x40_0000_0000_0000_0000 then TooMany else Number(Masked(v), |Encode(v)|)
    ensures v < 0x1_0000_0000 ==> Masked(v) == v
    ensures v < 0x8000_0000_0000_0000 ==> Masked(v) == v % 0x1_0000_0000
    ensures v >= 0x8000_0000_0000_0000 ==> Masked(v) == v % 0x1_0000_0000 - 0x1_0000_0000 < 0
  {
    SpanEncode(data, start, 0, v);
    ValueEncode(v);
    assert v >= 0x40_0000_0000_0000_0000 <==> |Encode(v)| > 10 by {
      EncodedLength(v, 9);
      Pow128Ten();
    }
    MaskedIs(v);
  }

  lemma MaskedIs(v: nat)
    ensures v < 0x1_0000_0000 ==> Masked(v) == v
    ensures v < 0x8000_0000_0000_0000 ==> Masked(v) == v % 0x1_0000_0000
    ensures v >= 0x8000_0000_0000_0000 ==> Masked(v) == v % 0x1_0000_0000 - 0x1_0000_0000 < 0
  {
  }

  // ----- messages -----

  /** A message is its length and its bytes. */
  function EncodeMessage(payload: seq<Byte>): seq<Byte> {
    Encode(|payload|) + payload
  }

  function EncodeAll(payloads: seq<seq<Byte>>): seq<Byte> {
    if payloads == [] then [] else EncodeMessage(payloads[0]) + EncodeAll(payloads[1..])
  }

  /** How far a read of size bytes gets: all the rest for a negative size, and never past the end. */
  function ReadEnd(data: seq<Byte>, pos: nat, size: int): (end: nat)
    requires pos <= |data|
    ensures pos <= end <= |data|
  {
    if size < 0 || pos + size > |data| then |data| else pos + size
  }

  datatype Message = NoMessage | Message(payload: seq<Byte>)

  /** decodeMessage: the message at a place and the place after it. */
  function DecodeMessage(data: seq<Byte>, pos: nat): (r: (Message, nat))
    requires pos <= |data|
    ensures pos <= r.1 <= |data| && (r.0.Message? ==> pos < r.1)
  {
    match Decode(data, pos)
    case Eof => (NoMessage, |data|)
    case TooMany => (NoMessage, pos + 10)
    case Number(size, length) =>
      if size == 0 then (NoMessage, pos + length)
      else
        var end := ReadEnd(data, pos + length, size);
        (Message(data[pos + length..end]), end)
  }

  /** The messages a reader gets until the first failure. */
  function DecodeAll(data: seq<Byte>, pos: nat): seq<seq<Byte>>
    requires pos <= |data|
    decreases |data| - pos
  {
    var (m, next) := DecodeMessage(data, pos);
    if m.Message? then [m.payload] + DecodeAll(data, next) else []
  }

  /** Everything up to the first empty message. */
  function UpToEmpty(payloads: seq<seq<Byte>>): seq<seq<Byte>> {
    if payloads == [] || payloads[0] == [] then [] else [payloads[0]] + UpToEmpty(payloads[1..])
  }

  ghost predicate Fits(payloads: seq<seq<Byte>>) {
    forall i | 0 <= i < |payloads| :: |payloads[i]| < 0x1_0000_0000
  }

  lemma DecodeOne(data: seq<Byte>, pos: nat, payload: seq<Byte>)
    requires pos <= |data| && |payload| < 0x1_0000_0000 && Holds(data, pos, EncodeMessage(payload))
    ensures var (m, next) := DecodeMessage(data, pos);
      if payload == [] then m.NoMessage? else m == Message(payload) && next == pos + |EncodeMessage(payload)|
  {
    HoldsConcat(data, pos, Encode(|payload|), payload);
    DecodeIs(data, pos, |payload|);
  }

  /** What a number in front of a message comes to. */
  lemma MessageBehind(data: seq<Byte>, pos: nat, size: int, n: nat)
    requires pos <= |data| && Decode(data, pos) == Number(size, n)
    ensures var at := pos + n;
      DecodeMessage(data, pos) ==
        if size == 0 then (NoMessage, at)
        else if 0 < size <= |data| - at then (Message(data[at..at + size]), at + size)
        else (Message(data[at..]), |data|)
  {
    assert data[pos + n..|data|] == data[pos + n..];
  }

  /** What is read behind any encoded length: as many bytes as its low 32 bits say, or what is left of the file if there
      are fewer; all that is left from 2^63 on; nothing for 0, nor from 2^70 on. */
  lemma MessageIs(data: seq<Byte>, pos: nat, v: nat)
    requires pos <= |data| && Holds(data, pos, Encode(v))
    ensures var at, size := pos + |Encode(v)|, v % 0x1_0000_0000;
      DecodeMessage(data, pos) ==
        if v >= 0x40_0000_0000_0000_0000 then (NoMessage, pos + 10)
        else if v >= 0x8000_0000_0000_0000 || size > |data| - at then (Message(data[at..]), |data|)
        else if size == 0 then (NoMessage, at)
        else (Message(data[at..at + size]), at + size)
  {
    DecodeIs(data, pos, v);
    if v < 0x40_0000_0000_0000_0000 {
      MessageBehind(data, pos, Masked(v), |Encode(v)|);
    }
  }

  lemma StartsWith(data: seq<Byte>, pos: nat, a: seq<Byte>, b: seq<Byte>)
    requires pos <= |data| && data[pos..] == a + b
    ensures Holds(data, pos, a) && pos + |a| <= |data| && data[pos + |a|..] == b
  {
    var rest := data[pos..];
    assert data[pos..pos + |a|] == rest[..|a|] && data[pos + |a|..] == rest[|a|..];
  }

  lemma DecodeAllStep(data: seq<Byte>, pos: nat, m: Message, next: nat)
    requires pos <= |data| && (m, next) == DecodeMessage(data, pos)
    ensures DecodeAll(data, pos) == if m.Message? then [m.payload] + DecodeAll(data, next) else []
  {
  }

  lemma DecodeEnd(data: seq<Byte>)
    ensures DecodeAll(data, |data|) == []
  {
  }

  /** Decoding a stream of encoded messages gives the messages up to the first empty one, and then stops. */
  lemma {:induction false} DecodeStream(data: seq<Byte>, pos: nat, payloads: seq<seq<Byte>>)
    requires pos <= |data| && Fits(payloads) && data[pos..] == EncodeAll(payloads)
    ensures DecodeAll(data, pos) == UpToEmpty(payloads)
    decreases |payloads|
  {
    if payloads == [] {
      assert pos == |data|;
      DecodeEnd(data);
    } else {
      var p, rest := payloads[0], payloads[1..];
      StartsWith(data, pos, EncodeMessage(p), EncodeAll(rest));
      DecodeOne(data, pos, p);
      var (m, next) := DecodeMessage(data, pos);
      DecodeAllStep(data, pos, m, next);
      if p == [] {
        assert DecodeAll(data, pos) == [];
      } else {
        DecodeStream(data, next, rest);
        assert DecodeAll(data, pos) == [p] + UpToEmpty(rest);
      }
    }
  }

  lemma {:induction false} UpToEmptyIff(payloads: seq<seq<Byte>>)
    ensures UpToEmpty(payloads) == payloads <==> [] !in payloads
  {
    if payloads != [] {
      var p, rest := payloads[0], payloads[1..];
      assert payloads == [p] + rest;
      UpToEmptyIff(rest);
      if p != [] {
        assert ([p] + UpToEmpty(rest))[1..] == UpToEmpty(rest);
      }
    }
  }

  /** A stream of messages shorter than 2^32 bytes is read back exactly when none of them is empty. */
  lemma StreamRoundTripIff(payloads: seq<seq<Byte>>)
    requires Fits(payloads)
    ensures DecodeAll(EncodeAll(payloads), 0) == payloads <==> [] !in payloads
  {
    var data := EncodeAll(payloads);
    assert data[0..] == data;
    DecodeStream(data, 0, payloads);
    UpToEmptyIff(payloads);
  }

  /** One empty message is enough: it is not read back. */
  lemma EmptyMessageIsLost()
    ensures Fits([[]]) && DecodeAll(EncodeAll([[]]), 0) == []
  {
    var data, payloads := EncodeAll([[]]), [[]];
    assert data[0..] == data;
    DecodeStream(data, 0, payloads);
  }

  // ----- the file operations -----

  /** The decoding loop adds the bits of each byte at its place. */
  lemma {:induction false} ValueSnoc(s: seq<Byte>, b: Byte)
    ensures Value(s + [b]) == Value(s) + (b as int) % 128 * Pow128(|s|)
  {
    if s == [] {
      assert s + [b] == [b] && [b][1..] == [];
    } else {
      ValueSnoc(s[1..], b);
      assert (s + [b])[1..] == s[1..] + [b];
      assert 128 * ((b as int) % 128 * Pow128(|s| - 1)) == (b as int) % 128 * (128 * Pow128(|s| - 1));
    }
  }

  /** The bits that the decoding loop has collected after k bytes. */
  ghost function Collected(data: seq<Byte>, start: nat, k: nat): nat
    requires start + k <= |data|
  {
    if k == 0 then 0 else Collected(data, start, k - 1) + (data[start + k - 1] as int) % 128 * Pow128(k - 1)
  }

  lemma {:induction false} CollectedIs(data: seq<Byte>, start: nat, k: nat)
    requires start + k <= |data|
    ensures Collected(data, start, k) == Value(data[start..start + k])
  {
    if k > 0 {
      CollectedIs(data, start, k - 1);
      assert data[start..start + k] == data[start..start + k - 1] + [data[start + k - 1]];
      ValueSnoc(data[start..start + k - 1], data[start + k - 1]);
    }
  }

  class File {
    var data: seq<Byte>
    var pos: nat

    constructor ()
      ensures data == [] && pos == 0
    {
      data, pos := [], 0;
    }

    ghost predicate Valid()
      reads this
    {
      pos <= |data|
    }

    /** file.read. */
    method Read(size: int) returns (s: seq<Byte>)
      requires Valid()
      modifies `pos
      ensures Valid() && pos == ReadEnd(data, old(pos), size) && s == data[old(pos)..pos]
      ensures |s| == if 0 <= size <= |data| - old(pos) then size else |data| - old(pos)
    {
      var end := if size < 0 || pos + size > |data| then |data| else pos + size;
      s := data[pos..end];
      pos := end;
    }

    method DecodeVarint32() returns (d: Decoded)
      requires Valid()
      modifies `pos
      ensures Valid() && d == Decode(data, old(pos))
      ensures pos == old(pos) + if d.Number? then d.length else if d.TooMany? then 10 else |data| - old(pos)
    {
      var result: int, weight: int, k: nat := 0, 1, 0;
      ghost var start := pos;
      while true
        invariant k < 10 && weight == Pow128(k) && pos == start + k <= |data|
        invariant result == Collected(data, start, k) && SpanOf(data, start, 0) == SpanOf(data, start, k)
        decreases 10 - k
      {
        var c := Read(1);
        if |c| == 0 {
          return Eof;
        }
        var b: int := c[0];
        result := result + b % 128 * weight;
        k, weight := k + 1, weight * 128;
        if b < 128 {
          CollectedIs(data, start, k);
          return Number(Masked(result), k);
        }
        if k * 7 >= 64 {
          return TooMany;
        }
      }
    }

    method DecodeNext() returns (m: Message)
      requires Valid()
      modifies `pos
      ensures Valid() && (m, pos) == DecodeMessage(data, old(pos))
    {
      var d := DecodeVarint32();
      if !d.Number? || d.value == 0 {
        return NoMessage;
      }
      var buf := Read(d.value);
      m := Message(buf);
    }

    method EncodeVarint32(value: nat)
      modifies `data
      ensures data == old(data) + Encode(value)
    {
      var bits: nat, rest: nat := value % 128, value / 128;
      while rest > 0
        invariant 0 <= bits < 128 && data + Encode(rest * 128 + bits) == old(data) + Encode(value)
        decreases rest
      {
        data := data + [128 + bits];
        assert (rest * 128 + bits) / 128 == rest && (rest * 128 + bits) % 128 == bits;
        bits, rest := rest % 128, rest / 128;
      }
      data := data + [bits];
    }

    method EncodeNext(payload: seq<Byte>)
      modifies `data
      ensures data == old(data) + EncodeMessage(payload)
    {
      EncodeVarint32(|payload|);
      data := data + payload;
    }
  }
}
