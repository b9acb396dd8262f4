/**
 The CBOR subset (section 3 of RFC 8949: unsigned and negative integers, byte strings and maps with
 integer keys) and the COSE EC2 keys (section 7.1.1 of RFC 9053) of auth/webauthn.go.
 */
module Cbor {
  import opened Bytes

  const MAX_DEPTH: nat := 32
  const MAX_INT64: nat := 0x7FFF_FFFF_FFFF_FFFF

  datatype Value = Uint(u: nat) | Nint(n: int) | ByteString(b: seq<Byte>) | Map(m: map<int, Value>)

  datatype Error =
    | Truncated
    | IndefiniteLength
    | NegativeOutOfRange
    | StringOverruns
    | TooDeep
    | KeyOutOfRange
    | KeyNotInteger
    | UnsupportedMajor

  /** What a decoding step returns, with the position of the cursor afterwards. */
  datatype Decoded<T> = Ok(value: T, pos: nat) | Err(error: Error, pos: nat)

  // ----- the decoder as a function of the position -----

  function BigEndian(s: seq<Byte>): nat {
    if s == [] then 0 else 256 * BigEndian(s[..|s| - 1]) + s[|s| - 1]
  }

  function ReadN(data: seq<Byte>, pos: nat, n: nat): Decoded<nat>
    requires pos <= |data|
  {
    if pos + n > |data| then Err(Truncated, pos) else Ok(BigEndian(data[pos..pos + n]), pos + n)
  }

  function ReadArg(data: seq<Byte>, pos: nat, ai: nat): (r: Decoded<nat>)
    requires pos <= |data|
    ensures pos <= r.pos <= |data|
  {
    if ai < 24 then Ok(ai, pos)
    else if ai == 24 then ReadN(data, pos, 1)
    else if ai == 25 then ReadN(data, pos, 2)
    else if ai == 26 then ReadN(data, pos, 4)
    else if ai == 27 then ReadN(data, pos, 8)
    else Err(IndefiniteLength, pos)
  }

  function MapKey(k: Value): (r: Decoded<int>) {
    match k
    case Uint(u) => if u > MAX_INT64 then Err(KeyOutOfRange, 0) else Ok(u, 0)
    case Nint(n) => Ok(n, 0)
    case _ => Err(KeyNotInteger, 0)
  }

  /** One item: the cursor stays in bounds, never moves back, and passes every decoded item. */
  function DecodeItem(data: seq<Byte>, pos: nat, depth: nat): (r: Decoded<Value>)
    requires pos <= |data|
    ensures pos <= r.pos <= |data| && (r.Ok? ==> pos < r.pos)
    decreases |data| - pos, 0
  {
    if pos >= |data| then Err(Truncated, pos)
    else
      var arg := ReadArg(data, pos + 1, data[pos] % 32);
      match data[pos] / 32
      case 0 => if arg.Err? then Err(arg.error, arg.pos) else Ok(Uint(arg.value), arg.pos)
      case 1 =>
        if arg.Err? then Err(arg.error, arg.pos)
        else if arg.value > MAX_INT64 then Err(NegativeOutOfRange, arg.pos)
        else Ok(Nint(-1 - arg.value), arg.pos)
      case 2 =>
        if arg.Err? then Err(arg.error, arg.pos)
        else if arg.value > |data| - arg.pos then Err(StringOverruns, arg.pos)
        else Ok(ByteString(data[arg.pos..arg.pos + arg.value]), arg.pos + arg.value)
      case 5 =>
        if arg.Err? then Err(arg.error, arg.pos)
        else if depth >= MAX_DEPTH then Err(TooDeep, arg.pos)
        else
          var pairs := DecodePairs(data, arg.pos, depth, arg.value, map[]);
          if pairs.Err? then Err(pairs.error, pairs.pos) else Ok(Map(pairs.value), pairs.pos)
      case _ => Err(UnsupportedMajor, pos + 1)
  }

  /** The remaining `count` pairs of a map at `depth`; a repeated key keeps its last value. */
  function DecodePairs(data: seq<Byte>, pos: nat, depth: nat, count: nat, m: map<int, Value>)
    : (r: Decoded<map<int, Value>>)
    requires pos <= |data|
    ensures pos <= r.pos <= |data|
    decreases |data| - pos, 1
  {
    if count == 0 then Ok(m, pos)
    else
      var k := DecodeItem(data, pos, depth + 1);
      if k.Err? then Err(k.error, k.pos)
      else
        var key := MapKey(k.value);
        if key.Err? then Err(key.error, k.pos)
        else
          var v := DecodeItem(data, k.pos, depth + 1);
          if v.Err? then Err(v.error, v.pos)
          else DecodePairs(data, v.pos, depth, count - 1, m[key.value := v.value])
  }

  // ----- the decoder object -----

  class Decoder {
    const data: seq<Byte>
    var pos: nat
    ghost var items: nat // items decoded so far, in every nesting level

    ghost predicate Valid()
      reads this
    {
      items <= pos <= |data|
    }

    constructor (data: seq<Byte>)
      ensures Valid() && this.data == data && pos == 0 && items == 0
    {
      this.data, pos, items := data, 0, 0;
    }

    method ReadBytes(n: nat) returns (r: Decoded<nat>)
      requires Valid()
      modifies this`pos
      ensures Valid() && r == ReadN(data, old(pos), n) && pos == r.pos
    {
      if pos + n > |data| {
        return Err(Truncated, pos);
      }
      var v: nat := 0;
      for i := 0 to n
        invariant v == BigEndian(data[pos..pos + i])
      {
        assert data[pos..pos + (i + 1)] == data[pos..pos + i] + [data[pos + i]];
        v := v * 256 + data[pos + i];
      }
      pos := pos + n;
      return Ok(v, pos);
    }

    method ReadArgument(ai: nat) returns (r: Decoded<nat>)
      requires Valid()
      modifies this`pos
      ensures Valid() && r == ReadArg(data, old(pos), ai) && pos == r.pos
    {
      if ai < 24 {
        return Ok(ai, pos);
      }
      match ai {
        case 24 => r := ReadBytes(1);
        case 25 => r := ReadBytes(2);
        case 26 => r := ReadBytes(4);
        case 27 => r := ReadBytes(8);
        case _ => return Err(IndefiniteLength, pos);
      }
    }

    /**
     Every call has depth at most MAX_DEPTH, and each decoded item costs at least one byte, whatever count
     a map declares.
     */
    method DecodeItemDepth(depth: nat) returns (r: Decoded<Value>)
      requires Valid() && depth <= MAX_DEPTH
      modifies this
      ensures Valid() && r == DecodeItem(data, old(pos), depth) && pos == r.pos
      ensures items - old(items) <= pos - old(pos) && items >= old(items)
      decreases |data| - pos, 0
    {
      hide ReadArg, DecodePairs;
      if pos >= |data| {
        return Err(Truncated, pos);
      }
      ghost var start := pos;
      var ib := data[pos];
      pos := pos + 1;
      var major, ai := ib / 32, ib % 32;
      if major !in {0, 1, 2, 5} {
        return Err(UnsupportedMajor, pos);
      }
      var arg := ReadArgument(ai);
      if arg.Err? {
        return Err(arg.error, pos);
      }
      match major {
        case 0 =>
          r := Ok(Uint(arg.value), pos);
        case 1 =>
          if arg.value > MAX_INT64 {
            return Err(NegativeOutOfRange, pos);
          }
          r := Ok(Nint(-1 - arg.value), pos);
        case 2 =>
          if arg.value > |data| - pos {
            return Err(StringOverruns, pos);
          }
          pos := pos + arg.value;
          r := Ok(ByteString(data[pos - arg.value..pos]), pos);
        case _ =>
          if depth >= MAX_DEPTH {
            return Err(TooDeep, pos);
          }
          var m := DecodeMap(arg.value, depth);
          if m.Err? {
            return Err(m.error, pos);
          }
          r := Ok(Map(m.value), pos);
      }
      items := items + 1;
    }

    /** The loop over the declared pairs of a map. */
    method DecodeMap(count: nat, depth: nat) returns (r: Decoded<map<int, Value>>)
      requires Valid() && depth < MAX_DEPTH
      modifies this
      ensures Valid() && r == DecodePairs(data, old(pos), depth, count, map[]) && pos == r.pos
      ensures items - old(items) <= pos - old(pos) && items >= old(items)
      decreases |data| - pos, 1
    {
      hide DecodeItem, MapKey;
      var m: map<int, Value> := map[];
      var i := 0;
      while i < count
        invariant Valid() && old(pos) <= pos && i <= count
        invariant DecodePairs(data, old(pos), depth, count, map[]) == DecodePairs(data, pos, depth, count - i, m)
        invariant 0 <= items - old(items) <= pos - old(pos)
      {
        var k := DecodeItemDepth(depth + 1);
        if k.Err? {
          return Err(k.error, pos);
        }
        var key := MapKey(k.value);
        if key.Err? {
          return Err(key.error, pos);
        }
        var v := DecodeItemDepth(depth + 1);
        if v.Err? {
          return Err(v.error, pos);
        }
        m := m[key.value := v.value];
        i := i + 1;
      }
      return Ok(m, pos);
    }
  }

  // ----- encodings -----

  /** How the argument of a head is written: in the initial byte, or in 1, 2, 4 or 8 bytes after it. */
  datatype Form = Direct | Wide(width: nat)

  /** An item as it is written: the forms its heads use and the order of its map pairs. */
  datatype Item =
    | UintItem(n: nat, form: Form)
    | NintItem(n: nat, form: Form) // stands for -1 - n
    | BytesItem(b: seq<Byte>, form: Form)
    | MapItem(pairs: Pairs, form: Form)

  datatype Pairs = NoPairs | Pair(key: Item, val: Item, rest: Pairs)

  function Pow256(k: nat): (r: nat)
    ensures r > 0
  {
    if k == 0 then 1 else 256 * Pow256(k - 1)
  }

  predicate Fits(n: nat, form: Form) {
    match form
    case Direct => n < 24
    case Wide(w) => w in {1, 2, 4, 8} && n < Pow256(w)
  }

  function ToBigEndian(n: nat, k: nat): (s: seq<Byte>)
    ensures |s| == k
  {
    if k == 0 then [] else ToBigEndian(n / 256, k - 1) + [n % 256]
  }

  function Head(major: nat, n: nat, form: Form): (s: seq<Byte>)
    requires major < 8 && Fits(n, form)
    ensures |s| > 0
  {
    match form
    case Direct => [major * 32 + n]
    case Wide(w) => [major * 32 + WidthCode(w)] + ToBigEndian(n, w)
  }

  function WidthCode(w: nat): (c: nat)
    requires w in {1, 2, 4, 8}
    ensures 24 <= c <= 27
  {
    if w == 1 then 24 else if w == 2 then 25 else if w == 4 then 26 else 27
  }

  function Count(ps: Pairs): nat {
    match ps case NoPairs => 0 case Pair(_, _, rest) => 1 + Count(rest)
  }

  predicate WellFormedKey(k: Item) {
    match k
    case UintItem(n, form) => n < 0x8000_0000_0000_0000 && Fits(n, form)
    case NintItem(n, form) => n < 0x8000_0000_0000_0000 && Fits(n, form)
    case _ => false
  }

  predicate WellFormed(item: Item) {
    match item
    case UintItem(n, form) => Fits(n, form)
    case NintItem(n, form) => n < 0x8000_0000_0000_0000 && Fits(n, form)
    case BytesItem(b, form) => Fits(|b|, form)
    case MapItem(ps, form) => Fits(Count(ps), form) && WellFormedPairs(ps)
  }

  predicate WellFormedPairs(ps: Pairs) {
    match ps
    case NoPairs => true
    case Pair(k, v, rest) => WellFormedKey(k) && WellFormed(v) && WellFormedPairs(rest)
  }

  function Max(a: nat, b: nat): nat {
    if a < b then b else a
  }

  /** Levels of maps inside one another. */
  function Depth(item: Item): nat {
    match item case MapItem(ps, _) => 1 + PairsDepth(ps) case _ => 0
  }

  function PairsDepth(ps: Pairs): nat {
    match ps case NoPairs => 0 case Pair(_, v, rest) => Max(Depth(v), PairsDepth(rest))
  }

  function KeyOf(k: Item): int {
    match k case UintItem(n, _) => n case NintItem(n, _) => -1 - n case _ => 0
  }

  function ValueOf(item: Item): Value {
    match item
    case UintItem(n, _) => Uint(n)
    case NintItem(n, _) => Nint(-1 - n)
    case BytesItem(b, _) => ByteString(b)
    case MapItem(ps, _) => Map(MapOf(ps, map[]))
  }

  function MapOf(ps: Pairs, m: map<int, Value>): map<int, Value> {
    match ps case NoPairs => m case Pair(k, v, rest) => MapOf(rest, m[KeyOf(k) := ValueOf(v)])
  }

  function Encode(item: Item): (s: seq<Byte>)
    requires WellFormed(item)
    ensures |s| > 0
  {
    match item
    case UintItem(n, form) => Head(0, n, form)
    case NintItem(n, form) => Head(1, n, form)
    case BytesItem(b, form) => Head(2, |b|, form) + b
    case MapItem(ps, form) => Head(5, Count(ps), form) + EncodePairs(ps)
  }

  function EncodePairs(ps: Pairs): seq<Byte>
    requires WellFormedPairs(ps)
  {
    match ps case NoPairs => [] case Pair(k, v, rest) => EncodeKey(k) + Encode(v) + EncodePairs(rest)
  }

  function EncodeKey(k: Item): seq<Byte>
    requires WellFormedKey(k)
  {
    match k case UintItem(n, form) => Head(0, n, form) case NintItem(n, form) => Head(1, n, form)
  }

  /** `part` stands in the data at the position. */
  ghost predicate StandsAt(data: seq<Byte>, pos: nat, part: seq<Byte>) {
    pos + |part| <= |data| && data[pos..pos + |part|] == part
  }

  lemma StandsAtSplit(data: seq<Byte>, pos: nat, a: seq<Byte>, b: seq<Byte>)
    ensures StandsAt(data, pos, a + b) <==> StandsAt(data, pos, a) && StandsAt(data, pos + |a|, b)
  {
    if StandsAt(data, pos, a + b) {
      assert data[pos..pos + |a|] == data[pos..pos + |a + b|][..|a|] == (a + b)[..|a|];
      assert data[pos + |a|..pos + |a| + |b|] == data[pos..pos + |a + b|][|a|..] == (a + b)[|a|..];
    }
  }

  lemma StandsInBounds(data: seq<Byte>, pos: nat, part: seq<Byte>)
    requires StandsAt(data, pos, part)
    ensures pos + |part| <= |data|
  {
  }

  // ----- heads -----

  lemma {:induction false} BigEndianInverts(n: nat, k: nat)
    requires n < Pow256(k)
    ensures BigEndian(ToBigEndian(n, k)) == n
  {
    if k > 0 {
      BigEndianInverts(n / 256, k - 1);
      assert ToBigEndian(n, k)[..k - 1] == ToBigEndian(n / 256, k - 1);
    }
  }

  lemma {:induction false} ToBigEndianInverts(s: seq<Byte>)
    ensures BigEndian(s) < Pow256(|s|) && ToBigEndian(BigEndian(s), |s|) == s
  {
    if s != [] {
      ToBigEndianInverts(s[..|s| - 1]);
    }
  }

  /** Reading a head that stands in the data gives its major type and its argument. */
  lemma ReadHead(data: seq<Byte>, pos: nat, major: nat, n: nat, form: Form)
    requires major < 8 && Fits(n, form) && StandsAt(data, pos, Head(major, n, form))
    ensures pos < |data| && data[pos] / 32 == major
    ensures ReadArg(data, pos + 1, data[pos] % 32) == Ok(n, pos + |Head(major, n, form)|)
  {
    var h := Head(major, n, form);
    HeadLayout(major, n, form);
    hide Head, BigEndian, ToBigEndian, Pow256, Fits, WidthCode;
    assert data[pos] == data[pos..pos + |h|][0] == h[0];
    if form.Wide? {
      assert data[pos + 1..pos + |h|] == data[pos..pos + |h|][1..] == h[1..];
      WideArgument(data, pos + 1, h[0] % 32, n, form.width);
    }
  }

  /** The initial byte of a head, and the bytes after it. */
  lemma HeadLayout(major: nat, n: nat, form: Form)
    requires major < 8 && Fits(n, form)
    ensures var h := Head(major, n, form);
            && h[0] / 32 == major
            && (match form
                case Direct => h[0] % 32 == n < 24 && |h| == 1
                case Wide(w) => h[0] % 32 == WidthCode(w) && h[1..] == ToBigEndian(n, w) && |h| == 1 + w
                                && w in {1, 2, 4, 8} && n < Pow256(w))
  {
  }

  /** The argument bytes that stand after an initial byte of a wide form. */
  lemma WideArgument(data: seq<Byte>, pos: nat, ai: nat, n: nat, w: nat)
    requires w in {1, 2, 4, 8} && ai == WidthCode(w) && n < Pow256(w)
    requires StandsAt(data, pos, ToBigEndian(n, w))
    ensures ReadArg(data, pos, ai) == Ok(n, pos + w)
  {
    BigEndianInverts(n, w);
    hide BigEndian, ToBigEndian, Pow256;
  }

  /** Every head that is read stands in the data in some form. */
  lemma HeadWasRead(data: seq<Byte>, pos: nat) returns (form: Form)
    requires pos < |data| && ReadArg(data, pos + 1, data[pos] % 32).Ok?
    ensures var arg := ReadArg(data, pos + 1, data[pos] % 32);
            && Fits(arg.value, form) && StandsAt(data, pos, Head(data[pos] / 32, arg.value, form))
            && arg.pos == pos + |Head(data[pos] / 32, arg.value, form)|
  {
    var ai, arg := data[pos] % 32, ReadArg(data, pos + 1, data[pos] % 32);
    if ai < 24 {
      form := Direct;
    } else {
      var w := if ai == 24 then 1 else if ai == 25 then 2 else if ai == 26 then 4 else 8;
      form := Wide(w);
      WideHeadWasRead(data, pos, w, arg.value);
    }
  }

  lemma WideHeadWasRead(data: seq<Byte>, pos: nat, w: nat, n: nat)
    requires pos < |data| && w in {1, 2, 4, 8} && data[pos] % 32 == WidthCode(w)
    requires ReadN(data, pos + 1, w) == Ok(n, pos + 1 + w)
    ensures Fits(n, Wide(w)) && StandsAt(data, pos, Head(data[pos] / 32, n, Wide(w)))
    ensures |Head(data[pos] / 32, n, Wide(w))| == 1 + w
  {
    var tail := data[pos + 1..pos + 1 + w];
    ToBigEndianInverts(tail);
    hide BigEndian, ToBigEndian, Pow256;
    assert Head(data[pos] / 32, n, Wide(w)) == [data[pos]] + tail;
    SliceCons(data, pos, pos + 1 + w);
  }

  lemma SliceCons(data: seq<Byte>, i: nat, j: nat)
    requires i < j <= |data|
    ensures data[i..j] == [data[i]] + data[i + 1..j]
  {
  }

  // ----- decoding inverts encoding -----

  lemma {:induction false} DecodeInvertsEncode(item: Item, data: seq<Byte>, pos: nat, depth: nat)
    requires WellFormed(item) && StandsAt(data, pos, Encode(item)) && depth + Depth(item) <= MAX_DEPTH
    ensures DecodeItem(data, pos, depth) == Ok(ValueOf(item), pos + |Encode(item)|)
    decreases item
  {
    hide ReadArg, ReadN, Head, DecodePairs, MapOf, EncodePairs, BigEndian, MapKey, Fits;
    match item {
      case UintItem(n, form) =>
        ReadHead(data, pos, 0, n, form);
      case NintItem(n, form) =>
        ReadHead(data, pos, 1, n, form);
      case BytesItem(b, form) =>
        StandsAtSplit(data, pos, Head(2, |b|, form), b);
        ReadHead(data, pos, 2, |b|, form);
      case MapItem(ps, form) =>
        StandsAtSplit(data, pos, Head(5, Count(ps), form), EncodePairs(ps));
        ReadHead(data, pos, 5, Count(ps), form);
        PairsInvertEncode(ps, data, pos + |Head(5, Count(ps), form)|, depth, map[]);
    }
  }

  lemma {:induction false} KeyInvertsEncode(k: Item, data: seq<Byte>, pos: nat, depth: nat)
    requires WellFormedKey(k) && StandsAt(data, pos, EncodeKey(k))
    ensures DecodeItem(data, pos, depth).Ok? && DecodeItem(data, pos, depth).pos == pos + |EncodeKey(k)|
    ensures MapKey(DecodeItem(data, pos, depth).value) == Ok(KeyOf(k), 0)
  {
    ReadHead(data, pos, if k.UintItem? then 0 else 1, k.n, k.form);
  }

  lemma {:induction false} PairsInvertEncode(ps: Pairs, data: seq<Byte>, pos: nat, depth: nat, m: map<int, Value>)
    requires WellFormedPairs(ps) && StandsAt(data, pos, EncodePairs(ps)) && depth + 1 + PairsDepth(ps) <= MAX_DEPTH
    ensures DecodePairs(data, pos, depth, Count(ps), m) == Ok(MapOf(ps, m), pos + |EncodePairs(ps)|)
    decreases ps
  {
    hide DecodeItem, Encode, EncodeKey, MapKey, ValueOf, KeyOf, Depth, StandsAt, WellFormedKey;
    match ps {
      case NoPairs =>
        StandsInBounds(data, pos, []);
      case Pair(k, v, rest) =>
        var afterKey := pos + |EncodeKey(k)|;
        StandsAtSplit(data, pos, EncodeKey(k) + Encode(v), EncodePairs(rest));
        StandsAtSplit(data, pos, EncodeKey(k), Encode(v));
        StandsInBounds(data, pos, EncodeKey(k));
        StandsInBounds(data, afterKey, Encode(v));
        KeyInvertsEncode(k, data, pos, depth + 1);
        DecodeInvertsEncode(v, data, afterKey, depth + 1);
        PairsInvertEncode(rest, data, afterKey + |Encode(v)|, depth, m[KeyOf(k) := ValueOf(v)]);
    }
  }

  // ----- only encodings decode -----

  lemma {:induction false} DecodedWasEncoded(data: seq<Byte>, pos: nat, depth: nat) returns (item: Item)
    requires pos <= |data| && depth <= MAX_DEPTH && DecodeItem(data, pos, depth).Ok?
    ensures var r := DecodeItem(data, pos, depth);
            && WellFormed(item) && depth + Depth(item) <= MAX_DEPTH && ValueOf(item) == r.value
            && StandsAt(data, pos, Encode(item)) && r.pos == pos + |Encode(item)|
    decreases |data| - pos, 0
  {
    hide ReadArg, ReadN, Head, DecodePairs, MapOf, EncodePairs, BigEndian, MapKey, Fits, StandsAt;
    var arg := ReadArg(data, pos + 1, data[pos] % 32);
    var form := HeadWasRead(data, pos);
    match data[pos] / 32 {
      case 0 =>
        item := UintItem(arg.value, form);
      case 1 =>
        item := NintItem(arg.value, form);
      case 2 =>
        var b := data[arg.pos..arg.pos + arg.value];
        item := BytesItem(b, form);
        SliceStands(data, arg.pos, arg.value);
        StandsAtSplit(data, pos, Head(2, |b|, form), b);
      case _ =>
        var ps := DecodedPairsWereEncoded(data, arg.pos, depth, arg.value, map[]);
        item := MapItem(ps, form);
        StandsAtSplit(data, pos, Head(5, Count(ps), form), EncodePairs(ps));
    }
  }

  lemma {:induction false} DecodedPairsWereEncoded(data: seq<Byte>, pos: nat, depth: nat, count: nat, m: map<int, Value>)
    returns (ps: Pairs)
    requires pos <= |data| && depth < MAX_DEPTH && DecodePairs(data, pos, depth, count, m).Ok?
    ensures var r := DecodePairs(data, pos, depth, count, m);
            && WellFormedPairs(ps) && depth + 1 + PairsDepth(ps) <= MAX_DEPTH && Count(ps) == count
            && MapOf(ps, m) == r.value && StandsAt(data, pos, EncodePairs(ps)) && r.pos == pos + |EncodePairs(ps)|
    decreases |data| - pos, 1
  {
    hide DecodeItem, Head, ReadArg, Fits, Depth, StandsAt, Encode, EncodeKey, KeyOf, MapKey, ValueOf, WellFormedKey;
    if count == 0 {
      ps := NoPairs;
      NothingStandsAt(data, pos);
    } else {
      var dk := DecodeItem(data, pos, depth + 1);
      var k := DecodedWasEncoded(data, pos, depth + 1);
      var dv := DecodeItem(data, dk.pos, depth + 1);
      var v := DecodedWasEncoded(data, dk.pos, depth + 1);
      var rest := DecodedPairsWereEncoded(data, dv.pos, depth, count - 1, m[MapKey(dk.value).value := dv.value]);
      ps := Pair(k, v, rest);
      KeyWasEncoded(k);
      StandsAtSplit(data, pos, Encode(k), Encode(v));
      StandsAtSplit(data, pos, Encode(k) + Encode(v), EncodePairs(rest));
    }
  }

  lemma SliceStands(data: seq<Byte>, pos: nat, n: nat)
    requires pos + n <= |data|
    ensures StandsAt(data, pos, data[pos..pos + n])
  {
  }

  lemma NothingStandsAt(data: seq<Byte>, pos: nat)
    requires pos <= |data|
    ensures StandsAt(data, pos, [])
  {
  }

  lemma KeyWasEncoded(k: Item)
    requires WellFormed(k) && MapKey(ValueOf(k)).Ok?
    ensures WellFormedKey(k) && EncodeKey(k) == Encode(k) && KeyOf(k) == MapKey(ValueOf(k)).value
  {
  }

  /** The decoder accepts exactly the well-formed encodings within the depth limit, whatever follows them. */
  lemma DecodesIffEncoded(data: seq<Byte>, v: Value, end: nat)
    ensures DecodeItem(data, 0, 0) == Ok(v, end) <==>
            exists item :: WellFormed(item) && Depth(item) <= 32 && ValueOf(item) == v
                           && Encode(item) <= data && end == |Encode(item)|
  {
    hide DecodeItem, Encode, WellFormed, Depth, ValueOf;
    if DecodeItem(data, 0, 0) == Ok(v, end) {
      var item := DecodedWasEncoded(data, 0, 0);
      assert Encode(item) <= data;
    }
    if item :| WellFormed(item) && Depth(item) <= 32 && ValueOf(item) == v
               && Encode(item) <= data && end == |Encode(item)|
    {
      DecodeInvertsEncode(item, data, 0, 0);
    }
  }

  // ----- COSE keys -----

  datatype CoseError = NotCbor(error: Error) | NotAMap | WrongKeyType | WrongAlgorithm | WrongCurve | BadCoordinates | OffCurve

  datatype CoseResult = Key(x: nat, y: nat) | Rejected(error: CoseError)

  /** The bytes of the value under a key; a value that is not a byte string has none. */
  function BytesAt(m: map<int, Value>, k: int): seq<Byte> {
    if k in m && m[k].ByteString? then m[k].b else []
  }

  function CoseKeyToECDSA(raw: seq<Byte>, onCurve: (seq<Byte>, seq<Byte>) -> bool): CoseResult {
    match DecodeItem(raw, 0, 0)
    case Err(e, _) => Rejected(NotCbor(e))
    case Ok(v, _) =>
      if !v.Map? then Rejected(NotAMap)
      else if !(1 in v.m && v.m[1] == Uint(2)) then Rejected(WrongKeyType)
      else if !(3 in v.m && v.m[3] == Nint(-7)) then Rejected(WrongAlgorithm)
      else if !(-1 in v.m && v.m[-1] == Uint(1)) then Rejected(WrongCurve)
      else if |BytesAt(v.m, -2)| != 32 || |BytesAt(v.m, -3)| != 32 then Rejected(BadCoordinates)
      else if !onCurve(BytesAt(v.m, -2), BytesAt(v.m, -3)) then Rejected(OffCurve)
      else Key(BigEndian(BytesAt(v.m, -2)), BigEndian(BytesAt(v.m, -3)))
  }

  /** The map is an ES256 key with these coordinate bytes. */
  ghost predicate IsEs256Key(m: map<int, Value>, x: seq<Byte>, y: seq<Byte>) {
    && 1 in m && m[1] == Uint(2)
    && 3 in m && m[3] == Nint(-7)
    && -1 in m && m[-1] == Uint(1)
    && -2 in m && m[-2] == ByteString(x) && |x| == 32
    && -3 in m && m[-3] == ByteString(y) && |y| == 32
  }

  /** Every encoding of a key on the curve, in any pair order and with any other entries, gives back x and y. */
  lemma CoseRecoversKey(item: Item, suffix: seq<Byte>, x: seq<Byte>, y: seq<Byte>, onCurve: (seq<Byte>, seq<Byte>) -> bool)
    requires item.MapItem? && WellFormed(item) && Depth(item) <= 32
    requires IsEs256Key(ValueOf(item).m, x, y) && onCurve(x, y)
    ensures CoseKeyToECDSA(Encode(item) + suffix, onCurve) == Key(BigEndian(x), BigEndian(y))
  {
    hide DecodeItem, Encode, MapOf, BigEndian;
    DecodeInvertsEncode(item, Encode(item) + suffix, 0, 0);
  }

  /** And only those: an accepted key is the encoding of such a map. */
  lemma CoseAcceptsOnlyKeys(raw: seq<Byte>, onCurve: (seq<Byte>, seq<Byte>) -> bool)
    returns (item: Item, x: seq<Byte>, y: seq<Byte>)
    requires CoseKeyToECDSA(raw, onCurve).Key?
    ensures item.MapItem? && WellFormed(item) && Depth(item) <= MAX_DEPTH && Encode(item) <= raw
    ensures IsEs256Key(ValueOf(item).m, x, y) && onCurve(x, y)
    ensures CoseKeyToECDSA(raw, onCurve) == Key(BigEndian(x), BigEndian(y))
  {
    hide DecodeItem, Encode, MapOf, BigEndian, WellFormed, Depth;
    item := DecodedWasEncoded(raw, 0, 0);
    x, y := BytesAt(ValueOf(item).m, -2), BytesAt(ValueOf(item).m, -3);
  }

  /** The recovered numbers determine the 32 coordinate bytes. */
  lemma CoordinatesAreDetermined(x: seq<Byte>, x': seq<Byte>)
    requires |x| == |x'| && BigEndian(x) == BigEndian(x')
    ensures x == x'
  {
    ToBigEndianInverts(x);
    ToBigEndianInverts(x');
  }
}
