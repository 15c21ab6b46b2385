/**
 The calldata encoder `_encode_is_app_allowed` of `verify/facts.py`, and a decoder that
 follows the Solidity Contract ABI Specification, section "Formal Specification of the
 Encoding". Strings are the bytes of their UTF-8 encoding.
 */
module AbiEncoding {
  import opened Bytes
  import opened Hex
  import opened Options

  datatype BootInfo = BootInfo(appId: string, composeHash: string, instanceId: string, deviceId: string,
                               mrAggregated: string, mrSystem: string, osImageHash: string,
                               tcbStatus: seq<byte>, advisoryIds: seq<seq<byte>>)

  /** ValueError from fromhex, ValueError from the size check, OverflowError from to_bytes. */
  datatype EncodeError = NotHex | TooLong | Overflow

  datatype Result<+T> = Ok(value: T) | Err(error: EncodeError)

  // ---------------------------------------------------------------------------
  // The encoder

  function Zeros(n: nat): (s: seq<byte>)
    ensures |s| == n && forall i :: 0 <= i < n ==> s[i] == 0
  {
    if n == 0 then [] else [0] + Zeros(n - 1)
  }

  function RightJustify(raw: seq<byte>, n: nat): (s: seq<byte>)
    requires |raw| <= n
    ensures |s| == n
  {
    Zeros(n - |raw|) + raw
  }

  /** The bytes a field's text stands for. */
  function RawBytes(value: string): Option<seq<byte>> {
    if value == "" || value == "0x" then Some([])
    else FromHex(if "0x" <= value then value[2..] else value)
  }

  /** _word */
  function Word(value: string, maxSize: nat): (r: Result<seq<byte>>)
    requires maxSize <= 32
    ensures r.Ok? ==> |r.value| == 32
  {
    match RawBytes(value)
    case None => Err(NotHex)
    case Some(raw) => if |raw| > maxSize then Err(TooLong) else Ok(RightJustify(raw, 32))
  }

  function Padding(n: nat): nat {
    (32 - n % 32) % 32
  }

  /** _dynamic_bytes, when the length fits a word. */
  function DynamicBytes(value: seq<byte>): seq<byte> {
    Digits(|value|, 32) + value + Zeros(Padding(|value|))
  }

  /** `b"".join(values[:k])`. */
  function Joined(values: seq<seq<byte>>, k: nat): seq<byte>
    requires k <= |values|
  {
    if k == 0 then [] else Joined(values, k - 1) + values[k - 1]
  }

  function Dynamics(items: seq<seq<byte>>): (r: seq<seq<byte>>)
    ensures |r| == |items|
  {
    seq(|items|, i requires 0 <= i < |items| => DynamicBytes(items[i]))
  }

  /** The offset of the k-th element, counted from the start of the offsets. */
  function Offset(values: seq<seq<byte>>, k: nat): nat
    requires k <= |values|
  {
    32 * |values| + |Joined(values, k)|
  }

  function Heads(values: seq<seq<byte>>, k: nat): (r: seq<byte>)
    requires k <= |values|
    ensures |r| == 32 * k
  {
    if k == 0 then [] else Heads(values, k - 1) + Digits(Offset(values, k - 1), 32)
  }

  /** The encoding of string[]: count, offsets, elements. */
  function AdvisoryBytes(items: seq<seq<byte>>): seq<byte> {
    var values := Dynamics(items);
    Digits(|values|, 32) + Heads(values, |values|) + Joined(values, |values|)
  }

  /** Every length and offset fits the word it is written to. */
  ghost predicate Fits(tcb: seq<byte>, items: seq<seq<byte>>) {
    && |tcb| < WORD_LIMIT && 288 + |DynamicBytes(tcb)| < WORD_LIMIT
    && ItemsFit(items)
  }

  function StaticWords(info: BootInfo): (r: Result<seq<byte>>)
    ensures r.Ok? ==> |r.value| == 224
  {
    match (Word(info.appId, 20), Word(info.composeHash, 32), Word(info.instanceId, 20), Word(info.deviceId, 32),
           Word(info.mrAggregated, 32), Word(info.mrSystem, 32), Word(info.osImageHash, 32))
    case (Ok(a), Ok(b), Ok(c), Ok(d), Ok(e), Ok(f), Ok(g)) => Ok(a + b + c + d + e + f + g)
    case (Err(x), _, _, _, _, _, _) => Err(x)
    case (_, Err(x), _, _, _, _, _) => Err(x)
    case (_, _, Err(x), _, _, _, _) => Err(x)
    case (_, _, _, Err(x), _, _, _) => Err(x)
    case (_, _, _, _, Err(x), _, _) => Err(x)
    case (_, _, _, _, _, Err(x), _) => Err(x)
    case (_, _, _, _, _, _, Err(x)) => Err(x)
  }

  function TupleBytes(words: seq<byte>, tcb: seq<byte>, items: seq<seq<byte>>): seq<byte> {
    var text := DynamicBytes(tcb);
    words + Digits(288, 32) + Digits(288 + |text|, 32) + text + AdvisoryBytes(items)
  }

  const SELECTOR: seq<byte> := [0x1e, 0x07, 0x91, 0x98]

  /** _encode_is_app_allowed */
  ghost function Encode(info: BootInfo): Result<string> {
    match StaticWords(info)
    case Err(e) => Err(e)
    case Ok(words) =>
      if !Fits(info.tcbStatus, info.advisoryIds) then Err(Overflow)
      else Ok("0x1e079198" + ToHex(Digits(32, 32)) + ToHex(TupleBytes(words, info.tcbStatus, info.advisoryIds)))
  }

  // ---------------------------------------------------------------------------
  // The decoder

  datatype Decoded = Decoded(appId: seq<byte>, composeHash: seq<byte>, instanceId: seq<byte>, deviceId: seq<byte>,
                             mrAggregated: seq<byte>, mrSystem: seq<byte>, osImageHash: seq<byte>,
                             tcbStatus: seq<byte>, advisoryIds: seq<seq<byte>>)

  function WordAt(data: seq<byte>, pos: nat): Option<seq<byte>> {
    if pos + 32 <= |data| then Some(data[pos..pos + 32]) else None
  }

  function NumberAt(data: seq<byte>, pos: nat): Option<nat> {
    match WordAt(data, pos)
    case None => None
    case Some(w) => Some(FromBigEndian(w))
  }

  /** An address: twelve zero bytes, then twenty. */
  function AddressAt(data: seq<byte>, pos: nat): Option<seq<byte>> {
    match WordAt(data, pos)
    case None => None
    case Some(w) => if w[..12] == Zeros(12) then Some(w[12..]) else None
  }

  /** A byte string: its length, its bytes, and zeros up to the next word. */
  function StringAt(data: seq<byte>, pos: nat): Option<seq<byte>> {
    match NumberAt(data, pos)
    case None => None
    case Some(n) =>
      var from := pos + 32;
      if from + n + Padding(n) <= |data| && data[from + n..from + n + Padding(n)] == Zeros(Padding(n))
      then Some(data[from..from + n])
      else None
  }

  /** Elements k, ..., n - 1 of an array whose offsets start at pos. */
  function ElementsAt(data: seq<byte>, pos: nat, k: nat, n: nat): Option<seq<seq<byte>>>
    requires k <= n
    decreases n - k
  {
    if k == n then Some([])
    else
      match NumberAt(data, pos + 32 * k)
      case None => None
      case Some(offset) =>
        match (StringAt(data, pos + offset), ElementsAt(data, pos, k + 1, n))
        case (Some(item), Some(rest)) => Some([item] + rest)
        case _ => None
  }

  function ArrayAt(data: seq<byte>, pos: nat): Option<seq<seq<byte>>> {
    match NumberAt(data, pos)
    case None => None
    case Some(n) => ElementsAt(data, pos + 32, 0, n)
  }

  /** The tuple: seven static words, then the offsets of the string and of the array. */
  function DecodeTuple(data: seq<byte>): Option<Decoded> {
    match (AddressAt(data, 0), WordAt(data, 32), AddressAt(data, 64), WordAt(data, 96), WordAt(data, 128),
           WordAt(data, 160), WordAt(data, 192), NumberAt(data, 224), NumberAt(data, 256))
    case (Some(a), Some(b), Some(c), Some(d), Some(e), Some(f), Some(g), Some(text), Some(list)) =>
      (match (StringAt(data, text), ArrayAt(data, list))
       case (Some(tcb), Some(items)) => Some(Decoded(a, b, c, d, e, f, g, tcb, items))
       case _ => None)
    case _ => None
  }

  /** Calldata: the selector, then the offset of the only, dynamic, argument. */
  function DecodeCall(data: seq<byte>): Option<Decoded> {
    if |data| < 4 || data[..4] != SELECTOR then None
    else
      var args := data[4..];
      match NumberAt(args, 0)
      case None => None
      case Some(offset) => if offset <= |args| then DecodeTuple(args[offset..]) else None
  }

  function DecodeText(text: string): Option<Decoded> {
    if !("0x" <= text) then None
    else
      match FromHex(text[2..])
      case None => None
      case Some(data) => DecodeCall(data)
  }

  // ---------------------------------------------------------------------------
  // Round trip

  /** part stands at pos in data. */
  ghost predicate Located(data: seq<byte>, pos: nat, part: seq<byte>) {
    pos + |part| <= |data| && data[pos..pos + |part|] == part
  }

  lemma LocatedWithin(data: seq<byte>, pos: nat, whole: seq<byte>, i: nat, part: seq<byte>)
    requires Located(data, pos, whole) && Located(whole, i, part)
    ensures Located(data, pos + i, part)
  {
    forall k | 0 <= k < |part| ensures data[pos + i + k] == part[k] {
      assert whole[i..i + |part|][k] == part[k];
      assert data[pos..pos + |whole|][i + k] == whole[i + k];
    }
  }

  lemma LocatedParts(data: seq<byte>, pos: nat, x: seq<byte>, y: seq<byte>, z: seq<byte>)
    requires Located(data, pos, x + y + z)
    ensures Located(data, pos, x) && Located(data, pos + |x|, y) && Located(data, pos + |x| + |y|, z)
  {
    var all := x + y + z;
    assert Located(all, 0, x) && Located(all, |x|, y) && Located(all, |x| + |y|, z);
    LocatedWithin(data, pos, all, 0, x);
    LocatedWithin(data, pos, all, |x|, y);
    LocatedWithin(data, pos, all, |x| + |y|, z);
  }

  lemma NumberLocated(data: seq<byte>, pos: nat, n: nat)
    requires n < WORD_LIMIT && Located(data, pos, Digits(n, 32))
    ensures NumberAt(data, pos) == Some(n)
  {
    WordRoundTrip(n);
  }

  /** A byte string is read back wherever it is written. */
  lemma StringLocated(data: seq<byte>, pos: nat, v: seq<byte>)
    requires |v| < WORD_LIMIT && Located(data, pos, DynamicBytes(v))
    ensures StringAt(data, pos) == Some(v)
  {
    LocatedParts(data, pos, Digits(|v|, 32), v, Zeros(Padding(|v|)));
    NumberLocated(data, pos, |v|);
  }

  lemma {:induction false} HeadWithin(values: seq<seq<byte>>, k: nat, n: nat)
    requires k < n <= |values|
    ensures Located(Heads(values, n), 32 * k, Digits(Offset(values, k), 32))
    decreases n
  {
    var init, last := Heads(values, n - 1), Digits(Offset(values, n - 1), 32);
    assert Located(init + last, 0, init) && Located(init + last, |init|, last);
    if k < n - 1 {
      HeadWithin(values, k, n - 1);
      LocatedWithin(init + last, 0, init, 32 * k, Digits(Offset(values, k), 32));
    }
  }

  lemma {:induction false} ValueWithin(values: seq<seq<byte>>, k: nat, n: nat)
    requires k < n <= |values|
    ensures Located(Joined(values, n), |Joined(values, k)|, values[k])
    decreases n
  {
    var init, last := Joined(values, n - 1), values[n - 1];
    assert Located(init + last, 0, init) && Located(init + last, |init|, last);
    if k < n - 1 {
      ValueWithin(values, k, n - 1);
      LocatedWithin(init + last, 0, init, |Joined(values, k)|, values[k]);
    }
  }

  lemma NumberWithin(data: seq<byte>, pos: nat, whole: seq<byte>, i: nat, x: nat)
    requires x < WORD_LIMIT && Located(data, pos, whole) && Located(whole, i, Digits(x, 32))
    ensures NumberAt(data, pos + i) == Some(x)
  {
    LocatedWithin(data, pos, whole, i, Digits(x, 32));
    NumberLocated(data, pos + i, x);
  }

  ghost predicate ItemsFit(items: seq<seq<byte>>) {
    && |items| < WORD_LIMIT
    && (forall i :: 0 <= i < |items| ==> |items[i]| < WORD_LIMIT)
    && (forall k :: 0 <= k < |items| ==> Offset(Dynamics(items), k) < WORD_LIMIT)
  }

  /** The k-th word of heads is an offset that, counted from the start of heads, lands on item in body. */
  ghost predicate ElementShape(heads: seq<byte>, body: seq<byte>, offset: nat, k: nat, item: seq<byte>) {
    && offset < WORD_LIMIT && |item| < WORD_LIMIT && offset >= |heads|
    && Located(heads, 32 * k, Digits(offset, 32))
    && Located(body, offset - |heads|, DynamicBytes(item))
  }

  ghost predicate ArrayShape(heads: seq<byte>, body: seq<byte>, items: seq<seq<byte>>, offsets: seq<nat>) {
    && |offsets| == |items| && |heads| == 32 * |items|
    && (forall k :: 0 <= k < |items| ==> ElementShape(heads, body, offsets[k], k, items[k]))
  }

  lemma ElementLocated(data: seq<byte>, pos: nat, heads: seq<byte>, body: seq<byte>,
                       offset: nat, k: nat, item: seq<byte>)
    requires Located(data, pos, heads) && Located(data, pos + |heads|, body)
    requires ElementShape(heads, body, offset, k, item)
    ensures NumberAt(data, pos + 32 * k) == Some(offset)
    ensures StringAt(data, pos + offset) == Some(item)
  {
    NumberWithin(data, pos, heads, 32 * k, offset);
    LocatedWithin(data, pos + |heads|, body, offset - |heads|, DynamicBytes(item));
    StringLocated(data, pos + offset, item);
  }

  /** Reading an element at its offset gives the item. */
  ghost predicate ElementRead(data: seq<byte>, pos: nat, offset: nat, k: nat, item: seq<byte>) {
    NumberAt(data, pos + 32 * k) == Some(offset) && StringAt(data, pos + offset) == Some(item)
  }

  lemma {:induction false} ElementsRead(data: seq<byte>, pos: nat, items: seq<seq<byte>>, offsets: seq<nat>, k: nat)
    requires k <= |items| == |offsets|
    requires forall i :: 0 <= i < |items| ==> ElementRead(data, pos, offsets[i], i, items[i])
    ensures ElementsAt(data, pos, k, |items|) == Some(items[k..])
    decreases |items| - k
  {
    if k == |items| {
      assert items[k..] == [];
    } else {
      ElementsRead(data, pos, items, offsets, k + 1);
      assert ElementRead(data, pos, offsets[k], k, items[k]);
      assert items[k..] == [items[k]] + items[k + 1..];
    }
  }

  lemma ElementsLocated(data: seq<byte>, pos: nat, heads: seq<byte>, body: seq<byte>,
                        items: seq<seq<byte>>, offsets: seq<nat>)
    requires ArrayShape(heads, body, items, offsets)
    requires Located(data, pos, heads) && Located(data, pos + |heads|, body)
    ensures ElementsAt(data, pos, 0, |items|) == Some(items)
  {
    forall k | 0 <= k < |items| ensures ElementRead(data, pos, offsets[k], k, items[k]) {
      ElementLocated(data, pos, heads, body, offsets[k], k, items[k]);
    }
    ElementsRead(data, pos, items, offsets, 0);
    assert items[0..] == items;
  }

  lemma OffsetShape(values: seq<seq<byte>>, k: nat)
    requires k < |values|
    ensures Located(Heads(values, |values|), 32 * k, Digits(Offset(values, k), 32))
    ensures Located(Joined(values, |values|), Offset(values, k) - 32 * |values|, values[k])
  {
    HeadWithin(values, k, |values|);
    ValueWithin(values, k, |values|);
  }

  /** The encoder's offsets land on the elements. */
  lemma AdvisoryShape(items: seq<seq<byte>>) returns (offsets: seq<nat>)
    requires ItemsFit(items)
    ensures var values := Dynamics(items);
            ArrayShape(Heads(values, |values|), Joined(values, |values|), items, offsets)
  {
    var values := Dynamics(items);
    offsets := seq(|items|, k requires 0 <= k < |items| => Offset(values, k));
    var heads, body := Heads(values, |values|), Joined(values, |values|);
    forall k | 0 <= k < |items| ensures ElementShape(heads, body, offsets[k], k, items[k]) {
      OffsetShape(values, k);
    }
  }

  /** A string[] is read back wherever it is written. */
  lemma ArrayLocated(data: seq<byte>, pos: nat, items: seq<seq<byte>>)
    requires ItemsFit(items) && Located(data, pos, AdvisoryBytes(items))
    ensures ArrayAt(data, pos) == Some(items)
  {
    var values := Dynamics(items);
    var offsets := AdvisoryShape(items);
    ArrayRead(data, pos, Heads(values, |values|), Joined(values, |values|), items, offsets);
  }

  lemma ArrayRead(data: seq<byte>, pos: nat, heads: seq<byte>, body: seq<byte>,
                  items: seq<seq<byte>>, offsets: seq<nat>)
    requires |items| < WORD_LIMIT && ArrayShape(heads, body, items, offsets)
    requires Located(data, pos, Digits(|items|, 32) + heads + body)
    ensures ArrayAt(data, pos) == Some(items)
  {
    LocatedParts(data, pos, Digits(|items|, 32), heads, body);
    NumberLocated(data, pos, |items|);
    ElementsLocated(data, pos + 32, heads, body, items, offsets);
  }

  /** The bytes of a field, right-justified to the size of its type. */
  function FieldBytes(value: string, size: nat): seq<byte> {
    match RawBytes(value)
    case Some(raw) => if |raw| <= size then RightJustify(raw, size) else []
    case None => []
  }

  /** What the callee sees: every hex field right-justified to its size, the strings as they are. */
  function Meaning(info: BootInfo): Decoded {
    Decoded(FieldBytes(info.appId, 20), FieldBytes(info.composeHash, 32), FieldBytes(info.instanceId, 20),
            FieldBytes(info.deviceId, 32), FieldBytes(info.mrAggregated, 32), FieldBytes(info.mrSystem, 32),
            FieldBytes(info.osImageHash, 32), info.tcbStatus, info.advisoryIds)
  }

  lemma WordLocated(data: seq<byte>, pos: nat, value: string)
    requires Word(value, 32).Ok? && Located(data, pos, Word(value, 32).value)
    ensures WordAt(data, pos) == Some(FieldBytes(value, 32))
  {
  }

  lemma {:induction false} ZerosSum(m: nat, n: nat)
    ensures Zeros(m + n) == Zeros(m) + Zeros(n)
  {
    if m > 0 {
      ZerosSum(m - 1, n);
    }
  }

  lemma AddressLocated(data: seq<byte>, pos: nat, value: string)
    requires Word(value, 20).Ok? && Located(data, pos, Word(value, 20).value)
    ensures AddressAt(data, pos) == Some(FieldBytes(value, 20))
  {
    AddressSplit(RawBytes(value).value);
  }

  /** A right-justified word of at most twenty bytes starts with twelve zeros. */
  lemma AddressSplit(raw: seq<byte>)
    requires |raw| <= 20
    ensures RightJustify(raw, 32)[..12] == Zeros(12)
    ensures RightJustify(raw, 32)[12..] == RightJustify(raw, 20)
  {
    var tail := Zeros(20 - |raw|) + raw;
    ZerosSum(12, 20 - |raw|);
    assert RightJustify(raw, 32) == Zeros(12) + tail;
  }

  ghost predicate WordsOf(info: BootInfo, words: seq<byte>) {
    && Word(info.appId, 20).Ok? && Located(words, 0, Word(info.appId, 20).value)
    && Word(info.composeHash, 32).Ok? && Located(words, 32, Word(info.composeHash, 32).value)
    && Word(info.instanceId, 20).Ok? && Located(words, 64, Word(info.instanceId, 20).value)
    && Word(info.deviceId, 32).Ok? && Located(words, 96, Word(info.deviceId, 32).value)
    && Word(info.mrAggregated, 32).Ok? && Located(words, 128, Word(info.mrAggregated, 32).value)
    && Word(info.mrSystem, 32).Ok? && Located(words, 160, Word(info.mrSystem, 32).value)
    && Word(info.osImageHash, 32).Ok? && Located(words, 192, Word(info.osImageHash, 32).value)
  }

  lemma SevenWords(a: seq<byte>, b: seq<byte>, c: seq<byte>, d: seq<byte>, e: seq<byte>, f: seq<byte>, g: seq<byte>)
    requires |a| == |b| == |c| == |d| == |e| == |f| == |g| == 32
    ensures var w := a + b + c + d + e + f + g;
            && Located(w, 0, a) && Located(w, 32, b) && Located(w, 64, c) && Located(w, 96, d)
            && Located(w, 128, e) && Located(w, 160, f) && Located(w, 192, g)
  {
  }

  lemma StaticWordsLocated(info: BootInfo)
    requires StaticWords(info).Ok?
    ensures WordsOf(info, StaticWords(info).value)
  {
    SevenWords(Word(info.appId, 20).value, Word(info.composeHash, 32).value, Word(info.instanceId, 20).value,
               Word(info.deviceId, 32).value, Word(info.mrAggregated, 32).value, Word(info.mrSystem, 32).value,
               Word(info.osImageHash, 32).value);
  }

  lemma TupleLayout(words: seq<byte>, h1: seq<byte>, h2: seq<byte>, text: seq<byte>, rest: seq<byte>)
    requires |words| == 224 && |h1| == |h2| == 32
    ensures var data := words + h1 + h2 + text + rest;
            && Located(data, 0, words) && Located(data, 224, h1) && Located(data, 256, h2)
            && Located(data, 288, text) && Located(data, 288 + |text|, rest)
  {
  }

  /** The tuple with head and list as the two offsets: its parts stand where they are read. */
  lemma TupleNumbers(data: seq<byte>, head: nat, list: nat)
    requires head < WORD_LIMIT && list < WORD_LIMIT
    requires Located(data, 224, Digits(head, 32)) && Located(data, 256, Digits(list, 32))
    ensures NumberAt(data, 224) == Some(head) && NumberAt(data, 256) == Some(list)
  {
    NumberLocated(data, 224, head);
    NumberLocated(data, 256, list);
  }

  lemma TupleDynamics(data: seq<byte>, tcb: seq<byte>, items: seq<seq<byte>>)
    requires Fits(tcb, items)
    requires Located(data, 288, DynamicBytes(tcb)) && Located(data, 288 + |DynamicBytes(tcb)|, AdvisoryBytes(items))
    ensures StringAt(data, 288) == Some(tcb) && ArrayAt(data, 288 + |DynamicBytes(tcb)|) == Some(items)
  {
    StringLocated(data, 288, tcb);
    ArrayLocatedAt(data, 288 + |DynamicBytes(tcb)|, items);
  }

  lemma ArrayLocatedAt(data: seq<byte>, pos: nat, items: seq<seq<byte>>)
    requires Located(data, pos, AdvisoryBytes(items)) && ItemsFit(items)
    ensures ArrayAt(data, pos) == Some(items)
  {
    ArrayLocated(data, pos, items);
  }

  ghost predicate DynamicsRead(data: seq<byte>, tcb: seq<byte>, items: seq<seq<byte>>, text: nat, list: nat) {
    && NumberAt(data, 224) == Some(text) && NumberAt(data, 256) == Some(list)
    && StringAt(data, text) == Some(tcb) && ArrayAt(data, list) == Some(items)
  }

  /** The four parts of the tuple stand at 0, 224, 288 and after the string. */
  lemma TupleParts(words: seq<byte>, tcb: seq<byte>, items: seq<seq<byte>>)
    requires |words| == 224 && Fits(tcb, items)
    ensures var data, n := TupleBytes(words, tcb, items), |DynamicBytes(tcb)|;
            && Located(data, 0, words)
            && DynamicsRead(data, tcb, items, 288, 288 + n)
  {
    var data, list := TupleBytes(words, tcb, items), 288 + |DynamicBytes(tcb)|;
    TupleLayout(words, Digits(288, 32), Digits(list, 32), DynamicBytes(tcb), AdvisoryBytes(items));
    TupleNumbers(data, 288, list);
    TupleDynamics(data, tcb, items);
  }

  lemma FieldsLocated(info: BootInfo, data: seq<byte>, words: seq<byte>)
    requires WordsOf(info, words) && Located(data, 0, words)
    ensures AddressAt(data, 0) == Some(FieldBytes(info.appId, 20))
    ensures WordAt(data, 32) == Some(FieldBytes(info.composeHash, 32))
    ensures AddressAt(data, 64) == Some(FieldBytes(info.instanceId, 20))
    ensures WordAt(data, 96) == Some(FieldBytes(info.deviceId, 32))
    ensures WordAt(data, 128) == Some(FieldBytes(info.mrAggregated, 32))
    ensures WordAt(data, 160) == Some(FieldBytes(info.mrSystem, 32))
    ensures WordAt(data, 192) == Some(FieldBytes(info.osImageHash, 32))
  {
    LocatedWithin(data, 0, words, 0, Word(info.appId, 20).value);
    AddressLocated(data, 0, info.appId);
    FieldLocated(data, words, 32, info.composeHash);
    LocatedWithin(data, 0, words, 64, Word(info.instanceId, 20).value);
    AddressLocated(data, 64, info.instanceId);
    FieldLocated(data, words, 96, info.deviceId);
    FieldLocated(data, words, 128, info.mrAggregated);
    FieldLocated(data, words, 160, info.mrSystem);
    FieldLocated(data, words, 192, info.osImageHash);
  }

  lemma FieldLocated(data: seq<byte>, words: seq<byte>, pos: nat, value: string)
    requires Located(data, 0, words) && Word(value, 32).Ok? && Located(words, pos, Word(value, 32).value)
    ensures WordAt(data, pos) == Some(FieldBytes(value, 32))
  {
    LocatedWithin(data, 0, words, pos, Word(value, 32).value);
    WordLocated(data, pos, value);
  }

  ghost predicate StaticsRead(data: seq<byte>, d: Decoded) {
    && AddressAt(data, 0) == Some(d.appId) && WordAt(data, 32) == Some(d.composeHash)
    && AddressAt(data, 64) == Some(d.instanceId) && WordAt(data, 96) == Some(d.deviceId)
    && WordAt(data, 128) == Some(d.mrAggregated) && WordAt(data, 160) == Some(d.mrSystem)
    && WordAt(data, 192) == Some(d.osImageHash)
  }

  /** A tuple whose parts read as those of d decodes to d. */
  lemma Assembled(data: seq<byte>, d: Decoded, text: nat, list: nat)
    requires StaticsRead(data, d) && DynamicsRead(data, d.tcbStatus, d.advisoryIds, text, list)
    ensures DecodeTuple(data) == Some(d)
  {
  }

  /** The static words of d, wherever they stand first. */
  ghost predicate WordsRead(words: seq<byte>, d: Decoded) {
    forall data :: Located(data, 0, words) ==> StaticsRead(data, d)
  }

  lemma WordsAreRead(info: BootInfo)
    requires StaticWords(info).Ok?
    ensures WordsRead(StaticWords(info).value, Meaning(info))
  {
    StaticWordsLocated(info);
    forall data | Located(data, 0, StaticWords(info).value) ensures StaticsRead(data, Meaning(info)) {
      FieldsLocated(info, data, StaticWords(info).value);
    }
  }

  lemma TupleRead(data: seq<byte>, words: seq<byte>, d: Decoded, list: nat)
    requires Located(data, 0, words) && WordsRead(words, d)
    requires DynamicsRead(data, d.tcbStatus, d.advisoryIds, 288, list)
    ensures DecodeTuple(data) == Some(d)
  {
    Assembled(data, d, 288, list);
  }

  /** A tuple made of the static words of d and of its strings decodes to d. */
  lemma TupleRoundTrip(words: seq<byte>, tcb: seq<byte>, items: seq<seq<byte>>)
    requires |words| == 224 && Fits(tcb, items)
    ensures forall d :: WordsRead(words, d) && d.tcbStatus == tcb && d.advisoryIds == items ==>
                          DecodeTuple(TupleBytes(words, tcb, items)) == Some(d)
  {
    var data, list := TupleBytes(words, tcb, items), 288 + |DynamicBytes(tcb)|;
    TupleParts(words, tcb, items);
    forall d | WordsRead(words, d) && d.tcbStatus == tcb && d.advisoryIds == items
      ensures DecodeTuple(data) == Some(d)
    {
      TupleRead(data, words, d, list);
    }
  }

  lemma CallRoundTrip(tuple: seq<byte>)
    ensures DecodeCall(SELECTOR + Digits(32, 32) + tuple) == DecodeTuple(tuple)
  {
    var data := SELECTOR + Digits(32, 32) + tuple;
    var args := data[4..];
    assert data[..4] == SELECTOR && args == Digits(32, 32) + tuple;
    assert Located(args, 0, Digits(32, 32));
    NumberLocated(args, 0, 32);
    assert args[32..] == tuple;
  }

  lemma SelectorText()
    ensures ToHex(SELECTOR) == "1e079198"
  {
    assert ToHex([0x98]) == "98" by { assert ToHex([]) == ""; }
    assert SELECTOR[3..] == [0x98];
    assert SELECTOR[2..][1..] == SELECTOR[3..] && SELECTOR[1..][1..] == SELECTOR[2..];
    assert ToHex(SELECTOR[2..]) == "9198";
    assert ToHex(SELECTOR[1..]) == "079198";
  }

  lemma EncodedText(word: seq<byte>, tuple: seq<byte>)
    ensures "0x1e079198" + ToHex(word) + ToHex(tuple) == "0x" + ToHex(SELECTOR + word + tuple)
  {
    SelectorText();
    HexConcat(SELECTOR, word);
    HexConcat(SELECTOR + word, tuple);
    assert "0x" + "1e079198" == "0x1e079198";
  }

  lemma TextRoundTrip(data: seq<byte>)
    ensures DecodeText("0x" + ToHex(data)) == DecodeCall(data)
  {
    HexRoundTrip(data);
    assert ("0x" + ToHex(data))[2..] == ToHex(data);
  }

  /**
   Whenever the encoder succeeds, decoding its text by the ABI rules gives back the nine
   fields: the hex fields right-justified to their size, the strings unchanged.
   */
  lemma RoundTrip(info: BootInfo)
    requires Encode(info).Ok?
    ensures DecodeText(Encode(info).value) == Some(Meaning(info))
  {
    var words := StaticWords(info).value;
    var tuple := TupleBytes(words, info.tcbStatus, info.advisoryIds);
    var call := SELECTOR + Digits(32, 32) + tuple;
    EncodedText(Digits(32, 32), tuple);
    TextRoundTrip(call);
    CallRoundTrip(tuple);
    WordsAreRead(info);
    TupleRoundTrip(words, info.tcbStatus, info.advisoryIds);
  }

  // ---------------------------------------------------------------------------
  // The fields as bytes

  /** The text of a hex field, without "0x" in front, reads as these bytes. */
  predicate Spells(text: string, raw: seq<byte>) {
    FromHex(if "0x" <= text then text[2..] else text) == Some(raw)
  }

  /** field has n bytes: zeros, and then the bytes of raw. */
  ghost predicate Padded(raw: seq<byte>, field: seq<byte>, n: nat) {
    && |field| == n && |raw| <= n
    && field[n - |raw|..] == raw
    && (forall i :: 0 <= i < n - |raw| ==> field[i] == 0)
  }

  lemma NoPrefix(raw: seq<byte>)
    ensures !("0x" <= ToHex(raw))
    ensures ToHex(raw) == "" <==> raw == []
  {
    if raw != [] {
      DigitCharValue(raw[0] % 16);
      assert ToHex(raw)[1] != "0x"[1];
    }
  }

  /** Every field can be spelled, as hex writes it, and after "0x". */
  lemma Spellings(raw: seq<byte>)
    ensures Spells(ToHex(raw), raw) && Spells("0x" + ToHex(raw), raw)
  {
    HexRoundTrip(raw);
    NoPrefix(raw);
    assert ("0x" + ToHex(raw))[2..] == ToHex(raw);
  }

  lemma SpelledBytes(text: string, raw: seq<byte>)
    ensures RawBytes(text) == Some(raw) <==> Spells(text, raw)
  {
    assert "0x"[2..] == "";
  }

  lemma JustifiedPadded(raw: seq<byte>, n: nat)
    requires |raw| <= n
    ensures Padded(raw, RightJustify(raw, n), n)
  {
  }

  lemma FieldPadded(value: string, n: nat)
    requires FieldFits(value, n)
    ensures Padded(RawBytes(value).value, FieldBytes(value, n), n)
  {
    JustifiedPadded(RawBytes(value).value, n);
  }

  /** Every field of the decoded call is the field of raw, zeros before it, and the strings are unchanged. */
  ghost predicate AllPadded(raw: Decoded, d: Decoded) {
    && Padded(raw.appId, d.appId, 20) && Padded(raw.composeHash, d.composeHash, 32)
    && Padded(raw.instanceId, d.instanceId, 20) && Padded(raw.deviceId, d.deviceId, 32)
    && Padded(raw.mrAggregated, d.mrAggregated, 32) && Padded(raw.mrSystem, d.mrSystem, 32)
    && Padded(raw.osImageHash, d.osImageHash, 32)
    && d.tcbStatus == raw.tcbStatus && d.advisoryIds == raw.advisoryIds
  }

  predicate SpellsAll(info: BootInfo, raw: Decoded) {
    && Spells(info.appId, raw.appId) && Spells(info.composeHash, raw.composeHash)
    && Spells(info.instanceId, raw.instanceId) && Spells(info.deviceId, raw.deviceId)
    && Spells(info.mrAggregated, raw.mrAggregated) && Spells(info.mrSystem, raw.mrSystem)
    && Spells(info.osImageHash, raw.osImageHash)
    && info.tcbStatus == raw.tcbStatus && info.advisoryIds == raw.advisoryIds
  }

  predicate SizesFit(raw: Decoded) {
    && |raw.appId| <= 20 && |raw.composeHash| <= 32 && |raw.instanceId| <= 20 && |raw.deviceId| <= 32
    && |raw.mrAggregated| <= 32 && |raw.mrSystem| <= 32 && |raw.osImageHash| <= 32
  }

  predicate StandFor(info: BootInfo, raw: Decoded) {
    && RawBytes(info.appId) == Some(raw.appId) && RawBytes(info.composeHash) == Some(raw.composeHash)
    && RawBytes(info.instanceId) == Some(raw.instanceId) && RawBytes(info.deviceId) == Some(raw.deviceId)
    && RawBytes(info.mrAggregated) == Some(raw.mrAggregated) && RawBytes(info.mrSystem) == Some(raw.mrSystem)
    && RawBytes(info.osImageHash) == Some(raw.osImageHash)
  }

  lemma SpelledFields(info: BootInfo, raw: Decoded)
    requires SpellsAll(info, raw)
    ensures StandFor(info, raw)
  {
    SpelledBytes(info.appId, raw.appId);
    SpelledBytes(info.composeHash, raw.composeHash);
    SpelledBytes(info.instanceId, raw.instanceId);
    SpelledBytes(info.deviceId, raw.deviceId);
    SpelledBytes(info.mrAggregated, raw.mrAggregated);
    SpelledBytes(info.mrSystem, raw.mrSystem);
    SpelledBytes(info.osImageHash, raw.osImageHash);
  }

  /**
   For fields that read as hex the encoder succeeds exactly when they and the numbers fit, and
   its text then decodes to the bytes of the fields with zeros before them, and to the strings.
   */
  lemma BytesRecovered(info: BootInfo, raw: Decoded)
    requires SpellsAll(info, raw)
    ensures Encode(info).Ok? <==> SizesFit(raw) && Fits(raw.tcbStatus, raw.advisoryIds)
    ensures Encode(info).Ok? ==>
              && DecodeText(Encode(info).value).Some?
              && AllPadded(raw, DecodeText(Encode(info).value).value)
  {
    SpelledSucceeds(info, raw);
    if Encode(info).Ok? {
      RoundTrip(info);
      MeaningPadded(info, raw);
    }
  }

  lemma SpelledSucceeds(info: BootInfo, raw: Decoded)
    requires SpellsAll(info, raw)
    ensures Encode(info).Ok? <==> SizesFit(raw) && Fits(raw.tcbStatus, raw.advisoryIds)
  {
    SpelledFields(info, raw);
    EncodeSucceeds(info);
  }

  lemma MeaningPadded(info: BootInfo, raw: Decoded)
    requires SpellsAll(info, raw) && SizesFit(raw)
    ensures AllPadded(raw, Meaning(info))
  {
    SpelledFields(info, raw);
    FieldPadded(info.appId, 20);
    FieldPadded(info.composeHash, 32);
    FieldPadded(info.instanceId, 20);
    FieldPadded(info.deviceId, 32);
    FieldPadded(info.mrAggregated, 32);
    FieldPadded(info.mrSystem, 32);
    FieldPadded(info.osImageHash, 32);
  }

  /** The word at pos is that of raw. */
  ghost predicate PaddedAt(data: seq<byte>, pos: nat, raw: seq<byte>) {
    pos + 32 <= |data| && Padded(raw, data[pos..pos + 32], 32)
  }

  /** Where the parts of a call stand: the selector, the offset 32 of the tuple, its words and its first offset. */
  ghost predicate LaidOut(data: seq<byte>, raw: Decoded) {
    && |data| >= 4 && data[..4] == [0x1e, 0x07, 0x91, 0x98] && NumberAt(data, 4) == Some(32)
    && PaddedAt(data, 36, raw.appId) && PaddedAt(data, 68, raw.composeHash)
    && PaddedAt(data, 100, raw.instanceId) && PaddedAt(data, 132, raw.deviceId)
    && PaddedAt(data, 164, raw.mrAggregated) && PaddedAt(data, 196, raw.mrSystem)
    && PaddedAt(data, 228, raw.osImageHash) && NumberAt(data, 260) == Some(288)
  }

  lemma WordAtPlace(data: seq<byte>, words: seq<byte>, pos: nat, value: string, raw: seq<byte>, n: nat)
    requires n <= 32 && RawBytes(value) == Some(raw) && Word(value, n).Ok?
    requires Located(words, pos, Word(value, n).value) && Located(data, 36, words)
    ensures PaddedAt(data, 36 + pos, raw)
  {
    LocatedWithin(data, 36, words, pos, Word(value, n).value);
    JustifiedPadded(raw, 32);
  }

  lemma FirstAtPlace(data: seq<byte>, info: BootInfo, words: seq<byte>, raw: Decoded)
    requires StandFor(info, raw) && WordsOf(info, words) && Located(data, 36, words)
    ensures PaddedAt(data, 36, raw.appId) && PaddedAt(data, 68, raw.composeHash)
    ensures PaddedAt(data, 100, raw.instanceId) && PaddedAt(data, 132, raw.deviceId)
  {
    WordAtPlace(data, words, 0, info.appId, raw.appId, 20);
    WordAtPlace(data, words, 32, info.composeHash, raw.composeHash, 32);
    WordAtPlace(data, words, 64, info.instanceId, raw.instanceId, 20);
    WordAtPlace(data, words, 96, info.deviceId, raw.deviceId, 32);
  }

  lemma LastAtPlace(data: seq<byte>, info: BootInfo, words: seq<byte>, raw: Decoded)
    requires StandFor(info, raw) && WordsOf(info, words) && Located(data, 36, words)
    ensures PaddedAt(data, 164, raw.mrAggregated) && PaddedAt(data, 196, raw.mrSystem)
    ensures PaddedAt(data, 228, raw.osImageHash)
  {
    WordAtPlace(data, words, 128, info.mrAggregated, raw.mrAggregated, 32);
    WordAtPlace(data, words, 160, info.mrSystem, raw.mrSystem, 32);
    WordAtPlace(data, words, 192, info.osImageHash, raw.osImageHash, 32);
  }

  /** The calldata is the hex of the selector, the offset 32 and the tuple. */
  lemma CalldataRead(info: BootInfo) returns (data: seq<byte>, words: seq<byte>)
    requires Encode(info).Ok?
    ensures "0x" <= Encode(info).value && FromHex(Encode(info).value[2..]) == Some(data)
    ensures data == SELECTOR + Digits(32, 32) + TupleBytes(words, info.tcbStatus, info.advisoryIds)
    ensures WordsOf(info, words) && |words| == 224 && Fits(info.tcbStatus, info.advisoryIds)
  {
    words := StaticWords(info).value;
    StaticWordsLocated(info);
    data := CallRead(Digits(32, 32), TupleBytes(words, info.tcbStatus, info.advisoryIds));
  }

  lemma CallRead(word: seq<byte>, tuple: seq<byte>) returns (data: seq<byte>)
    ensures var text := "0x1e079198" + ToHex(word) + ToHex(tuple);
            "0x" <= text && FromHex(text[2..]) == Some(data)
    ensures data == SELECTOR + word + tuple
  {
    data := SELECTOR + word + tuple;
    EncodedText(word, tuple);
    HexRoundTrip(data);
    assert ("0x" + ToHex(data))[2..] == ToHex(data);
  }

  /** The calldata, read as hex: the selector, and every word of the head at the position that the ABI gives it. */
  lemma CalldataLayout(info: BootInfo, raw: Decoded)
    requires SpellsAll(info, raw) && Encode(info).Ok?
    ensures var text := Encode(info).value;
            "0x" <= text && FromHex(text[2..]).Some? && LaidOut(FromHex(text[2..]).value, raw)
  {
    var data, words := CalldataRead(info);
    CallStart(data, TupleBytes(words, info.tcbStatus, info.advisoryIds));
    TupleInCall(data, words, info.tcbStatus, info.advisoryIds);
    SpelledFields(info, raw);
    FirstAtPlace(data, info, words, raw);
    LastAtPlace(data, info, words, raw);
  }

  /** Where the parts of the tuple stand in a call. */
  lemma TupleInCall(data: seq<byte>, words: seq<byte>, tcb: seq<byte>, items: seq<seq<byte>>)
    requires |words| == 224 && Fits(tcb, items) && Located(data, 36, TupleBytes(words, tcb, items))
    ensures Located(data, 36, words) && NumberAt(data, 260) == Some(288)
    ensures NumberAt(data, 292) == Some(288 + |DynamicBytes(tcb)|)
    ensures Located(data, 324, DynamicBytes(tcb)) && Located(data, 324 + |DynamicBytes(tcb)|, AdvisoryBytes(items))
  {
    var tuple, list := TupleBytes(words, tcb, items), 288 + |DynamicBytes(tcb)|;
    TupleLayout(words, Digits(288, 32), Digits(list, 32), DynamicBytes(tcb), AdvisoryBytes(items));
    TupleWithin(data, tuple, words, list, DynamicBytes(tcb), AdvisoryBytes(items));
  }

  lemma CallStart(data: seq<byte>, tuple: seq<byte>)
    requires data == SELECTOR + Digits(32, 32) + tuple
    ensures data[..4] == SELECTOR && NumberAt(data, 4) == Some(32) && Located(data, 36, tuple)
  {
    assert Located(data, 4, Digits(32, 32));
    NumberLocated(data, 4, 32);
  }

  lemma TupleWithin(data: seq<byte>, tuple: seq<byte>, words: seq<byte>, list: nat, text: seq<byte>, rest: seq<byte>)
    requires Located(data, 36, tuple) && Located(tuple, 0, words) && Located(tuple, 224, Digits(288, 32))
    requires list < WORD_LIMIT && Located(tuple, 256, Digits(list, 32))
    requires Located(tuple, 288, text) && Located(tuple, list, rest)
    ensures Located(data, 36, words) && NumberAt(data, 260) == Some(288) && NumberAt(data, 292) == Some(list)
    ensures Located(data, 324, text) && Located(data, 36 + list, rest)
  {
    LocatedWithin(data, 36, tuple, 0, words);
    NumberWithin(data, 36, tuple, 224, 288);
    NumberWithin(data, 36, tuple, 256, list);
    LocatedWithin(data, 36, tuple, 288, text);
    LocatedWithin(data, 36, tuple, list, rest);
  }

  /** A byte string as the ABI writes it: its length in a word, and its bytes. */
  ghost predicate TextAt(data: seq<byte>, pos: nat, text: seq<byte>) {
    NumberAt(data, pos) == Some(|text|) && Located(data, pos + 32, text)
  }

  /** n bytes take that many bytes of whole words. */
  function WholeWords(n: nat): nat {
    (n + 31) / 32 * 32
  }

  lemma PaddedToWords(v: seq<byte>)
    ensures |DynamicBytes(v)| == 32 + WholeWords(|v|)
  {
    WordsPadded(|v| / 32, |v| % 32);
  }

  lemma WordsPadded(words: nat, rest: nat)
    requires rest < 32
    ensures Padding(32 * words + rest) == (32 - rest) % 32
    ensures WholeWords(32 * words + rest) == 32 * words + rest + (32 - rest) % 32
  {
    assert (32 * words + rest) % 32 == rest;
    assert (32 * words + rest + 31) / 32 == words + (rest + 31) / 32;
  }

  lemma TextLocated(data: seq<byte>, pos: nat, v: seq<byte>)
    requires |v| < WORD_LIMIT && Located(data, pos, DynamicBytes(v))
    ensures TextAt(data, pos, v)
  {
    LocatedParts(data, pos, Digits(|v|, 32), v, Zeros(Padding(|v|)));
    NumberLocated(data, pos, |v|);
  }

  /** The list at pos: the count, and from the next word an offset for each item, which leads to it from there. */
  ghost predicate ListAt(data: seq<byte>, pos: nat, items: seq<seq<byte>>) {
    && NumberAt(data, pos) == Some(|items|)
    && (forall k :: 0 <= k < |items| ==> ItemAt(data, pos + 32, k, items[k]))
  }

  ghost predicate ItemAt(data: seq<byte>, pos: nat, k: nat, item: seq<byte>) {
    NumberAt(data, pos + 32 * k).Some? && TextAt(data, pos + NumberAt(data, pos + 32 * k).value, item)
  }

  lemma ItemLocated(data: seq<byte>, pos: nat, heads: seq<byte>, body: seq<byte>, offset: nat, k: nat, item: seq<byte>)
    requires Located(data, pos, heads) && Located(data, pos + |heads|, body)
    requires ElementShape(heads, body, offset, k, item)
    ensures ItemAt(data, pos, k, item)
  {
    ElementLocated(data, pos, heads, body, offset, k, item);
    LocatedWithin(data, pos + |heads|, body, offset - |heads|, DynamicBytes(item));
    TextLocated(data, pos + offset, item);
  }

  lemma ListLocated(data: seq<byte>, pos: nat, items: seq<seq<byte>>)
    requires ItemsFit(items) && Located(data, pos, AdvisoryBytes(items))
    ensures ListAt(data, pos, items)
  {
    var values := Dynamics(items);
    var heads, body := Heads(values, |values|), Joined(values, |values|);
    var offsets := AdvisoryShape(items);
    LocatedParts(data, pos, Digits(|values|, 32), heads, body);
    NumberLocated(data, pos, |values|);
    forall k | 0 <= k < |items| ensures ItemAt(data, pos + 32, k, items[k]) {
      ItemLocated(data, pos + 32, heads, body, offsets[k], k, items[k]);
    }
  }

  /** The dynamic parts of a call: the string right after the head of the tuple, the list after its last word. */
  ghost predicate DynamicsLaidOut(data: seq<byte>, text: seq<byte>, items: seq<seq<byte>>) {
    var list := 356 + WholeWords(|text|);
    TextAt(data, 324, text) && NumberAt(data, 292) == Some(list - 36) && ListAt(data, list, items)
  }

  lemma DynamicLayout(info: BootInfo)
    requires Encode(info).Ok?
    ensures var text := Encode(info).value;
            && "0x" <= text && FromHex(text[2..]).Some?
            && DynamicsLaidOut(FromHex(text[2..]).value, info.tcbStatus, info.advisoryIds)
  {
    var data, words := CalldataRead(info);
    CallStart(data, TupleBytes(words, info.tcbStatus, info.advisoryIds));
    DynamicsAtPlace(data, words, info.tcbStatus, info.advisoryIds);
  }

  lemma DynamicsAtPlace(data: seq<byte>, words: seq<byte>, tcb: seq<byte>, items: seq<seq<byte>>)
    requires |words| == 224 && Fits(tcb, items) && Located(data, 36, TupleBytes(words, tcb, items))
    ensures DynamicsLaidOut(data, tcb, items)
  {
    TextInCall(data, words, tcb, items);
    var list := ListPlace(data, words, tcb, items);
    ListLocated(data, list, items);
  }

  lemma TextInCall(data: seq<byte>, words: seq<byte>, tcb: seq<byte>, items: seq<seq<byte>>)
    requires |words| == 224 && Fits(tcb, items) && Located(data, 36, TupleBytes(words, tcb, items))
    ensures TextAt(data, 324, tcb)
  {
    TupleInCall(data, words, tcb, items);
    TextLocated(data, 324, tcb);
  }

  lemma ListPlace(data: seq<byte>, words: seq<byte>, tcb: seq<byte>, items: seq<seq<byte>>) returns (list: nat)
    requires |words| == 224 && Fits(tcb, items) && Located(data, 36, TupleBytes(words, tcb, items))
    ensures list == 356 + WholeWords(|tcb|) && NumberAt(data, 292) == Some(list - 36)
    ensures Located(data, list, AdvisoryBytes(items))
  {
    TupleInCall(data, words, tcb, items);
    list := 324 + |DynamicBytes(tcb)|;
    PaddedToWords(tcb);
  }

  /** Every hex field has the size of its type. */
  predicate FullSize(raw: Decoded) {
    && |raw.appId| == |raw.instanceId| == 20
    && |raw.composeHash| == |raw.deviceId| == |raw.mrAggregated| == |raw.mrSystem| == |raw.osImageHash| == 32
  }

  /** A padded field of full size is its bytes. */
  lemma PaddedFull(raw: seq<byte>, field: seq<byte>)
    requires Padded(raw, field, |raw|)
    ensures field == raw
  {
    assert field[0..] == field;
  }

  lemma AllPaddedFull(raw: Decoded, d: Decoded)
    requires AllPadded(raw, d) && FullSize(raw)
    ensures d == raw
  {
    PaddedFull(raw.appId, d.appId);
    PaddedFull(raw.composeHash, d.composeHash);
    PaddedFull(raw.instanceId, d.instanceId);
    PaddedFull(raw.deviceId, d.deviceId);
    PaddedFull(raw.mrAggregated, d.mrAggregated);
    PaddedFull(raw.mrSystem, d.mrSystem);
    PaddedFull(raw.osImageHash, d.osImageHash);
  }

  lemma {:induction false} ZeroBytes(s: seq<byte>)
    requires forall i :: 0 <= i < |s| ==> s[i] == 0
    ensures FromBigEndian(s) == 0
  {
    if s != [] {
      ZeroBytes(s[..|s| - 1]);
    }
  }

  /** Zeros before the bytes keep the number they stand for. */
  lemma PaddedNumber(raw: seq<byte>, field: seq<byte>, n: nat)
    requires Padded(raw, field, n)
    ensures FromBigEndian(field) == FromBigEndian(raw)
  {
    ZerosBefore(field[..n - |raw|], raw);
    assert field == field[..n - |raw|] + raw;
  }

  lemma ZerosBefore(zeros: seq<byte>, raw: seq<byte>)
    requires forall i :: 0 <= i < |zeros| ==> zeros[i] == 0
    ensures FromBigEndian(zeros + raw) == FromBigEndian(raw)
  {
    ZeroBytes(zeros);
    FromConcat(zeros, raw);
    assert 0 * Pow256(|raw|) == 0;
  }

  /** Padded fields are equal exactly when their bytes stand for the same number. */
  lemma PaddedAlike(rawA: seq<byte>, rawB: seq<byte>, x: seq<byte>, y: seq<byte>, n: nat)
    requires Padded(rawA, x, n) && Padded(rawB, y, n)
    ensures x == y <==> FromBigEndian(rawA) == FromBigEndian(rawB)
  {
    PaddedNumber(rawA, x, n);
    PaddedNumber(rawB, y, n);
    DigitsFrom(x);
    DigitsFrom(y);
  }

  /** The same strings, and hex fields that stand for the same numbers. */
  predicate Alike(x: Decoded, y: Decoded) {
    && FromBigEndian(x.appId) == FromBigEndian(y.appId)
    && FromBigEndian(x.composeHash) == FromBigEndian(y.composeHash)
    && FromBigEndian(x.instanceId) == FromBigEndian(y.instanceId)
    && FromBigEndian(x.deviceId) == FromBigEndian(y.deviceId)
    && FromBigEndian(x.mrAggregated) == FromBigEndian(y.mrAggregated)
    && FromBigEndian(x.mrSystem) == FromBigEndian(y.mrSystem)
    && FromBigEndian(x.osImageHash) == FromBigEndian(y.osImageHash)
    && x.tcbStatus == y.tcbStatus && x.advisoryIds == y.advisoryIds
  }

  lemma AllPaddedAlike(x: Decoded, y: Decoded, c: Decoded, d: Decoded)
    requires AllPadded(x, c) && AllPadded(y, d)
    ensures c == d <==> Alike(x, y)
  {
    PaddedAlike(x.appId, y.appId, c.appId, d.appId, 20);
    PaddedAlike(x.composeHash, y.composeHash, c.composeHash, d.composeHash, 32);
    PaddedAlike(x.instanceId, y.instanceId, c.instanceId, d.instanceId, 20);
    PaddedAlike(x.deviceId, y.deviceId, c.deviceId, d.deviceId, 32);
    PaddedAlike(x.mrAggregated, y.mrAggregated, c.mrAggregated, d.mrAggregated, 32);
    PaddedAlike(x.mrSystem, y.mrSystem, c.mrSystem, d.mrSystem, 32);
    PaddedAlike(x.osImageHash, y.osImageHash, c.osImageHash, d.osImageHash, 32);
  }

  /**
   Two calls agree exactly when their strings do and their hex fields stand for the same
   numbers. Fields of full size are read back byte for byte, and then all fields agree.
   */
  lemma EncodingInjective(a: BootInfo, b: BootInfo, x: Decoded, y: Decoded)
    requires SpellsAll(a, x) && SpellsAll(b, y) && Encode(a).Ok? && Encode(b).Ok?
    ensures Encode(a) == Encode(b) <==> Alike(x, y)
    ensures FullSize(x) ==> DecodeText(Encode(a).value) == Some(x)
    ensures FullSize(x) && FullSize(y) ==> (Encode(a) == Encode(b) <==> x == y)
  {
    BytesRecovered(a, x);
    BytesRecovered(b, y);
    var c, d := DecodeText(Encode(a).value).value, DecodeText(Encode(b).value).value;
    AllPaddedAlike(x, y, c, d);
    if Alike(x, y) {
      SameWords(a, b, x, y);
    }
    if FullSize(x) {
      AllPaddedFull(x, c);
    }
    if FullSize(y) {
      AllPaddedFull(y, d);
    }
  }

  lemma WordsAlike(a: string, b: string, x: seq<byte>, y: seq<byte>, n: nat)
    requires RawBytes(a) == Some(x) && RawBytes(b) == Some(y) && |x| <= n && |y| <= n <= 32
    requires FromBigEndian(x) == FromBigEndian(y)
    ensures Word(a, n) == Word(b, n)
  {
    JustifiedPadded(x, 32);
    JustifiedPadded(y, 32);
    PaddedAlike(x, y, RightJustify(x, 32), RightJustify(y, 32), 32);
  }

  lemma SameWords(a: BootInfo, b: BootInfo, x: Decoded, y: Decoded)
    requires SpellsAll(a, x) && SpellsAll(b, y) && SizesFit(x) && SizesFit(y) && Alike(x, y)
    ensures Encode(a) == Encode(b)
  {
    SpelledFields(a, x);
    SpelledFields(b, y);
    WordsAlike(a.appId, b.appId, x.appId, y.appId, 20);
    WordsAlike(a.composeHash, b.composeHash, x.composeHash, y.composeHash, 32);
    WordsAlike(a.instanceId, b.instanceId, x.instanceId, y.instanceId, 20);
    WordsAlike(a.deviceId, b.deviceId, x.deviceId, y.deviceId, 32);
    WordsAlike(a.mrAggregated, b.mrAggregated, x.mrAggregated, y.mrAggregated, 32);
    WordsAlike(a.mrSystem, b.mrSystem, x.mrSystem, y.mrSystem, 32);
    WordsAlike(a.osImageHash, b.osImageHash, x.osImageHash, y.osImageHash, 32);
    SameStatics(a, b);
  }

  lemma SameStatics(a: BootInfo, b: BootInfo)
    requires Word(a.appId, 20) == Word(b.appId, 20) && Word(a.composeHash, 32) == Word(b.composeHash, 32)
    requires Word(a.instanceId, 20) == Word(b.instanceId, 20) && Word(a.deviceId, 32) == Word(b.deviceId, 32)
    requires Word(a.mrAggregated, 32) == Word(b.mrAggregated, 32) && Word(a.mrSystem, 32) == Word(b.mrSystem, 32)
    requires Word(a.osImageHash, 32) == Word(b.osImageHash, 32)
    requires a.tcbStatus == b.tcbStatus && a.advisoryIds == b.advisoryIds
    ensures Encode(a) == Encode(b)
  {
    assert StaticWords(a) == StaticWords(b);
  }

  /** The least number of zeros that fills the last word. */
  lemma PaddingAligned(n: nat)
    ensures Padding(n) < 32 && (32 + n + Padding(n)) % 32 == 0
  {
  }

  lemma AlignedSum(m: nat, n: nat)
    requires m % 32 == 0 && n % 32 == 0
    ensures (m + n) % 32 == 0
  {
  }

  lemma DynamicAligned(v: seq<byte>)
    ensures |DynamicBytes(v)| % 32 == 0
  {
    PaddingAligned(|v|);
  }

  lemma {:induction false} JoinedAligned(values: seq<seq<byte>>, k: nat)
    requires k <= |values| && forall i :: 0 <= i < |values| ==> |values[i]| % 32 == 0
    ensures |Joined(values, k)| % 32 == 0
  {
    if k > 0 {
      JoinedAligned(values, k - 1);
      AlignedSum(|Joined(values, k - 1)|, |values[k - 1]|);
    }
  }

  lemma {:induction false} HexLength(s: seq<byte>)
    ensures |ToHex(s)| == 2 * |s|
  {
    if s != [] {
      HexLength(s[1..]);
    }
  }

  lemma DynamicsAligned(items: seq<seq<byte>>)
    ensures forall i :: 0 <= i < |items| ==> |Dynamics(items)[i]| % 32 == 0
  {
    forall i | 0 <= i < |items| ensures |Dynamics(items)[i]| % 32 == 0 {
      DynamicAligned(items[i]);
    }
  }

  lemma AdvisorySize(items: seq<seq<byte>>)
    ensures |AdvisoryBytes(items)| == 32 * (1 + |items|) + |Joined(Dynamics(items), |items|)|
  {
  }

  lemma WordsAligned(n: nat)
    ensures (32 * n) % 32 == 0
  {
  }

  lemma AdvisoryAligned(items: seq<seq<byte>>)
    ensures |AdvisoryBytes(items)| % 32 == 0
  {
    DynamicsAligned(items);
    JoinedAligned(Dynamics(items), |items|);
    AdvisorySize(items);
    WordsAligned(1 + |items|);
    AlignedSum(32 * (1 + |items|), |Joined(Dynamics(items), |items|)|);
  }

  lemma TupleSize(words: seq<byte>, tcb: seq<byte>, items: seq<seq<byte>>)
    requires |words| == 224
    ensures |TupleBytes(words, tcb, items)| == 288 + (|DynamicBytes(tcb)| + |AdvisoryBytes(items)|)
  {
  }

  lemma HeadAligned(m: nat, n: nat)
    requires m % 32 == 0 && n % 32 == 0
    ensures (288 + (m + n)) % 32 == 0
  {
    AlignedSum(m, n);
    AlignedSum(288, m + n);
  }

  lemma TupleAligned(words: seq<byte>, tcb: seq<byte>, items: seq<seq<byte>>)
    requires |words| == 224
    ensures |TupleBytes(words, tcb, items)| % 32 == 0
  {
    DynamicAligned(tcb);
    AdvisoryAligned(items);
    TupleSize(words, tcb, items);
    HeadAligned(|DynamicBytes(tcb)|, |AdvisoryBytes(items)|);
  }

  /** The calldata is the selector and a whole number of words, in hex. */
  lemma EncodingLength(info: BootInfo) returns (words: nat)
    requires Encode(info).Ok?
    ensures |Encode(info).value| == 2 + 2 * (4 + 32 * words)
  {
    var head := StaticWords(info).value;
    var tuple := TupleBytes(head, info.tcbStatus, info.advisoryIds);
    HexLength(Digits(32, 32));
    HexLength(tuple);
    TupleAligned(head, info.tcbStatus, info.advisoryIds);
    words := 1 + |tuple| / 32;
  }

  /** The text of a hex field: pairs of digits for at most n bytes. */
  predicate FieldFits(value: string, n: nat) {
    RawBytes(value).Some? && |RawBytes(value).value| <= n
  }

  lemma WordSucceeds(value: string, n: nat)
    requires n <= 32
    ensures Word(value, n).Ok? <==> FieldFits(value, n)
  {
  }

  /** The encoder fails exactly when a hex field is malformed or too long, or a number too big. */
  lemma EncodeSucceeds(info: BootInfo)
    ensures Encode(info).Ok? <==>
      && FieldFits(info.appId, 20) && FieldFits(info.composeHash, 32) && FieldFits(info.instanceId, 20)
      && FieldFits(info.deviceId, 32) && FieldFits(info.mrAggregated, 32) && FieldFits(info.mrSystem, 32)
      && FieldFits(info.osImageHash, 32)
      && Fits(info.tcbStatus, info.advisoryIds)
  {
    WordSucceeds(info.appId, 20);
    WordSucceeds(info.composeHash, 32);
    WordSucceeds(info.instanceId, 20);
    WordSucceeds(info.deviceId, 32);
    WordSucceeds(info.mrAggregated, 32);
    WordSucceeds(info.mrSystem, 32);
    WordSucceeds(info.osImageHash, 32);
  }

  /** The hex fields in the order in which they are encoded, with their sizes. */
  function HexFields(info: BootInfo): (r: seq<(string, nat)>)
    ensures |r| == 7 && forall j :: 0 <= j < 7 ==> r[j].1 <= 32
  {
    [(info.appId, 20), (info.composeHash, 32), (info.instanceId, 20), (info.deviceId, 32),
     (info.mrAggregated, 32), (info.mrSystem, 32), (info.osImageHash, 32)]
  }

  /** The first hex field that is malformed or too long decides the error; overflow is only seen without one. */
  lemma FirstFailure(info: BootInfo, k: nat)
    requires k <= 7 && forall j :: 0 <= j < k ==> FieldFits(HexFields(info)[j].0, HexFields(info)[j].1)
    requires k < 7 ==> !FieldFits(HexFields(info)[k].0, HexFields(info)[k].1)
    ensures k < 7 ==> Encode(info) == Err(if RawBytes(HexFields(info)[k].0).None? then NotHex else TooLong)
    ensures k == 7 && Encode(info).Err? ==> Encode(info).error == Overflow
  {
    var fields := HexFields(info);
    forall j | 0 <= j < k ensures Word(fields[j].0, fields[j].1).Ok? {
      WordSucceeds(fields[j].0, fields[j].1);
    }
    assert k > 0 ==> Word(fields[0].0, fields[0].1).Ok?;
    assert k > 1 ==> Word(fields[1].0, fields[1].1).Ok?;
    assert k > 2 ==> Word(fields[2].0, fields[2].1).Ok?;
    assert k > 3 ==> Word(fields[3].0, fields[3].1).Ok?;
    assert k > 4 ==> Word(fields[4].0, fields[4].1).Ok?;
    assert k > 5 ==> Word(fields[5].0, fields[5].1).Ok?;
    assert k > 6 ==> Word(fields[6].0, fields[6].1).Ok?;
  }
}
