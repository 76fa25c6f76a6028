/** The hex-string field codecs of core/src/patching/serialization.rs:
    offsets are written as `0x` and eight upper-case digits, byte strings as
    `0x` and two lower-case digits per byte; the decoders drop one leading
    `0x` and hand the rest to Rust's `from_str_radix(_, 16)`. */
module Hex {
  import opened Common
  import opened JsonValue

  /** `std::num::IntErrorKind`, as far as an unsigned parse can produce it. */
  datatype IntErrorKind = Empty | InvalidDigit | PosOverflow

  datatype HexError = OddLength | BadInt(kind: IntErrorKind)

  /** `char::to_digit(16)`: digits in either case. */
  function DigitValue(c: char): (r: Option<nat>)
    ensures r.Some? <==> '0' <= c <= '9' || 'a' <= c <= 'f' || 'A' <= c <= 'F'
    ensures r.Some? ==> r.value < 16
  {
    if '0' <= c <= '9' then Some(c as int - '0' as int)
    else if 'a' <= c <= 'f' then Some(c as int - 'a' as int + 10)
    else if 'A' <= c <= 'F' then Some(c as int - 'A' as int + 10)
    else None
  }

  /** The digit `{:X}` prints. */
  function UpperDigit(d: nat): (c: char)
    requires d < 16
    ensures DigitValue(c) == Some(d)
    ensures '0' <= c <= '9' || 'A' <= c <= 'F'
  {
    if d < 10 then ('0' as int + d) as char else ('A' as int + d - 10) as char
  }

  /** The digit `{:x}` prints: the lower-case counterpart of `UpperDigit`,
      which `{:X}` prints; the two formats are separate in the source. */
  function LowerDigit(d: nat): (c: char)
    requires d < 16
    ensures DigitValue(c) == Some(d)
    ensures '0' <= c <= '9' || 'a' <= c <= 'f'
  {
    if d < 10 then ('0' as int + d) as char else ('a' as int + d - 10) as char
  }

  /** Rust's `from_str_radix(s, 16)` for an unsigned type whose largest
      value is `max`: an empty string is an error, a single leading `+` is
      accepted, every other character must be a hex digit of either case,
      and the digits are folded left to right with an overflow check at
      each step. `FromStrRadix16Spec` states its result for every input. */
  function FromStrRadix16(s: string, max: nat): (r: Result<nat, IntErrorKind>)
    ensures r.Ok? ==> r.value <= max
    ensures |s| == 0 ==> r == Err(Empty)
  {
    if |s| == 0 then Err(Empty)
    else if (s[0] == '+' || s[0] == '-') && |s| == 1 then Err(InvalidDigit)
    else Accumulate(Digits(s), 0, max)
  }

  /** The result of `from_str_radix(s, 16)` for every `s`, against the
      digits `ds = Digits(s)` and the length `k` of their leading run of hex
      digits: the parse succeeds exactly when `ds` is a non-empty run of
      digits whose value fits, and returns that value; otherwise the first
      character that stops the fold decides the error, `PosOverflow` when
      the run before it is already too large and `InvalidDigit` when it is
      a non-digit (or when nothing follows a lone sign). */
  lemma FromStrRadix16Spec(s: string, max: nat)
    ensures FromStrRadix16(s, max).Ok? <==>
      |Digits(s)| > 0 && AllDigits(Digits(s)) && HexValue(Digits(s)) <= max
    ensures FromStrRadix16(s, max).Ok? ==>
      AllDigits(Digits(s)) && FromStrRadix16(s, max).value == HexValue(Digits(s))
    ensures |s| == 0 ==> FromStrRadix16(s, max) == Err(Empty)
    ensures |s| > 0 && |Digits(s)| == 0 ==> FromStrRadix16(s, max) == Err(InvalidDigit)
    ensures |Digits(s)| > 0 && HexValue(Digits(s)[..DigitRun(Digits(s))]) > max ==>
      FromStrRadix16(s, max) == Err(PosOverflow)
    ensures |Digits(s)| > 0 && DigitRun(Digits(s)) < |Digits(s)| ==>
      (HexValue(Digits(s)[..DigitRun(Digits(s))]) <= max ==> FromStrRadix16(s, max) == Err(InvalidDigit))
  {
    if |s| > 0 && (s[0] == '+' || s[0] == '-') && |s| == 1 {
      assert Digits(s)[..0] == [];
    } else if |s| > 0 {
      AccumulateSpec(Digits(s), max);
    }
  }

  /** The characters `from_str_radix` reads as digits: `s` without one
      leading `+`. */
  function Digits(s: string): string
  {
    if |s| > 0 && s[0] == '+' then s[1..] else s
  }

  predicate AllDigits(ds: string)
  {
    forall i :: 0 <= i < |ds| ==> DigitValue(ds[i]).Some?
  }

  /** The value of a string of hex digits read most significant first,
      defined from its last digit, which counts units. */
  function HexValue(ds: string): nat
    requires AllDigits(ds)
  {
    if |ds| == 0 then 0 else 16 * HexValue(ds[..|ds| - 1]) + DigitValue(ds[|ds| - 1]).value
  }

  /** The length of the leading run of hex digits. */
  function DigitRun(ds: string): (k: nat)
    ensures k <= |ds| && AllDigits(ds[..k])
    ensures k < |ds| ==> DigitValue(ds[k]).None?
  {
    if |ds| == 0 || DigitValue(ds[0]).None? then 0
    else
      var k := 1 + DigitRun(ds[1..]);
      assert forall i :: 1 <= i < k ==> ds[..k][i] == ds[1..][..k - 1][i - 1];
      k
  }

  function Accumulate(ds: string, acc: nat, max: nat): (r: Result<nat, IntErrorKind>)
    requires acc <= max
    ensures r.Ok? ==> acc <= r.value <= max
    ensures r.Err? ==> r.error != Empty
  {
    if |ds| == 0 then Ok(acc)
    else match DigitValue(ds[0])
      case None => Err(InvalidDigit)
      case Some(d) =>
        if acc * 16 + d > max then Err(PosOverflow) else Accumulate(ds[1..], acc * 16 + d, max)
  }

  /** One further digit after a prefix that parsed to `acc`. */
  function Step(acc: nat, c: char, max: nat): Result<nat, IntErrorKind>
  {
    match DigitValue(c)
    case None => Err(InvalidDigit)
    case Some(d) => if acc * 16 + d > max then Err(PosOverflow) else Ok(acc * 16 + d)
  }

  /** Folding one more digit onto the end of a string is one more step after
      the string's own fold. */
  lemma {:induction false} AccumulateSnoc(ds: string, c: char, acc: nat, max: nat)
    requires acc <= max
    ensures Accumulate(ds + [c], acc, max) ==
      match Accumulate(ds, acc, max)
      case Err(e) => Err(e)
      case Ok(a) => Step(a, c, max)
  {
    if |ds| > 0 {
      assert (ds + [c])[0] == ds[0];
      assert (ds + [c])[1..] == ds[1..] + [c];
      match DigitValue(ds[0])
      case None =>
      case Some(d) =>
        if acc * 16 + d <= max {
          AccumulateSnoc(ds[1..], c, acc * 16 + d, max);
        }
    } else {
      assert (ds + [c])[1..] == [];
    }
  }

  /** Folding a concatenation folds the first part, then the second from
      where the first stopped. */
  lemma {:induction false} AccumulateAppend(xs: string, ys: string, acc: nat, max: nat)
    requires acc <= max
    ensures Accumulate(xs + ys, acc, max) ==
      match Accumulate(xs, acc, max)
      case Err(e) => Err(e)
      case Ok(a) => Accumulate(ys, a, max)
  {
    if |xs| > 0 {
      assert (xs + ys)[0] == xs[0];
      assert (xs + ys)[1..] == xs[1..] + ys;
      match DigitValue(xs[0])
      case None =>
      case Some(d) =>
        if acc * 16 + d <= max {
          AccumulateAppend(xs[1..], ys, acc * 16 + d, max);
        }
    } else {
      assert xs + ys == ys;
    }
  }

  /** Over hex digits only, the fold from zero succeeds exactly when the
      value fits, yields that value, and otherwise reports an overflow. */
  lemma {:induction false} AccumulateDigits(ds: string, max: nat)
    requires AllDigits(ds)
    ensures Accumulate(ds, 0, max).Ok? <==> HexValue(ds) <= max
    ensures Accumulate(ds, 0, max).Ok? ==> Accumulate(ds, 0, max).value == HexValue(ds)
    ensures Accumulate(ds, 0, max).Err? ==> Accumulate(ds, 0, max).error == PosOverflow
  {
    if |ds| > 0 {
      var init := ds[..|ds| - 1];
      var c := ds[|ds| - 1];
      assert init + [c] == ds;
      assert AllDigits(init) by {
        forall i | 0 <= i < |init| ensures DigitValue(init[i]).Some? {
          assert init[i] == ds[i];
        }
      }
      AccumulateDigits(init, max);
      AccumulateSnoc(init, c, 0, max);
    }
  }

  /** The fold from zero over any string: its leading digit run decides
      success, value and error. */
  lemma AccumulateSpec(ds: string, max: nat)
    ensures Accumulate(ds, 0, max).Ok? <==> AllDigits(ds) && HexValue(ds) <= max
    ensures Accumulate(ds, 0, max).Ok? ==>
      AllDigits(ds) && Accumulate(ds, 0, max).value == HexValue(ds)
    ensures HexValue(ds[..DigitRun(ds)]) > max ==> Accumulate(ds, 0, max) == Err(PosOverflow)
    ensures DigitRun(ds) < |ds| && HexValue(ds[..DigitRun(ds)]) <= max ==>
      Accumulate(ds, 0, max) == Err(InvalidDigit)
  {
    var k := DigitRun(ds);
    AccumulateDigits(ds[..k], max);
    AccumulateAppend(ds[..k], ds[k..], 0, max);
    assert ds[..k] + ds[k..] == ds;
    if k < |ds| {
      assert ds[k..][0] == ds[k];
    } else {
      assert ds[..k] == ds;
    }
  }

  /** The `n` low-order hex digits of `v`, most significant first. */
  function UpperHex(v: nat, n: nat): (r: string)
    ensures |r| == n
    ensures forall i :: 0 <= i < n ==> '0' <= r[i] <= '9' || 'A' <= r[i] <= 'F'
  {
    if n == 0 then [] else UpperHex(v / 16, n - 1) + [UpperDigit(v % 16)]
  }

  function Pow16(n: nat): (r: nat)
    ensures r > 0
  {
    if n == 0 then 1 else 16 * Pow16(n - 1)
  }

  /** Reading back `n` printed digits of a value that fits in them gives the
      value. */
  lemma {:induction false} UpperHexParses(v: nat, n: nat, max: nat)
    requires v < Pow16(n) && v <= max
    ensures Accumulate(UpperHex(v, n), 0, max) == Ok(v)
  {
    if n > 0 {
      UpperHexParses(v / 16, n - 1, max);
      AccumulateSnoc(UpperHex(v / 16, n - 1), UpperDigit(v % 16), 0, max);
    }
  }

  /** `se_u32_to_hex`: `format!("0x{:08X}", val)`. */
  function SeU32ToHex(val: u32): (r: string)
    ensures |r| == 10 && r[..2] == "0x"
    ensures forall i :: 2 <= i < 10 ==> '0' <= r[i] <= '9' || 'A' <= r[i] <= 'F'
  {
    "0x" + UpperHex(val, 8)
  }

  /** One leading lower-case `0x` is dropped; `0X` is kept. */
  function StripPrefix(s: string): (r: string)
    ensures |s| >= 2 && s[0] == '0' && s[1] == 'x' ==> r == s[2..]
    ensures !(|s| >= 2 && s[0] == '0' && s[1] == 'x') ==> r == s
  {
    if |s| >= 2 && s[..2] == "0x" then s[2..] else s
  }

  /** `de_hex_to_u32`: drop `0x` and parse the rest as a `u32`. It succeeds
      exactly when the remaining digits are hex digits whose value fits in
      32 bits, returns that value, and otherwise passes on the parser's
      error. */
  function DeHexToU32(s: string): (r: Result<u32, HexError>)
    ensures r.Ok? <==> (|Digits(StripPrefix(s))| > 0 && AllDigits(Digits(StripPrefix(s))) &&
      HexValue(Digits(StripPrefix(s))) <= MAX_U32)
    ensures r.Ok? ==> AllDigits(Digits(StripPrefix(s))) && r.value == HexValue(Digits(StripPrefix(s)))
    ensures r.Err? ==> r.error.BadInt? && FromStrRadix16(StripPrefix(s), MAX_U32) == Err(r.error.kind)
  {
    FromStrRadix16Spec(StripPrefix(s), MAX_U32);
    match FromStrRadix16(StripPrefix(s), MAX_U32)
    case Ok(v) => Ok(v)
    case Err(k) => Err(BadInt(k))
  }

  lemma U32RoundTrip(v: u32)
    ensures DeHexToU32(SeU32ToHex(v)) == Ok(v)
  {
    var s := SeU32ToHex(v);
    assert StripPrefix(s) == UpperHex(v, 8);
    assert Pow16(8) == 0x1_0000_0000;
    UpperHexParses(v, 8, MAX_U32);
  }

  /** `format!("{:02x}", b)`. */
  function LowerPair(b: u8): (r: string)
    ensures |r| == 2
  {
    [LowerDigit(b / 16), LowerDigit(b % 16)]
  }

  lemma PairParses(b: u8)
    ensures FromStrRadix16(LowerPair(b), MAX_U8) == Ok(b)
  {
    var p := LowerPair(b);
    assert p[0] == LowerDigit(b / 16) && p[1] == LowerDigit(b % 16);
    assert p[1..] == [p[1]] && p[1..][1..] == [];
    assert Accumulate([], b, MAX_U8) == Ok(b);
    assert Accumulate(p[1..], b / 16, MAX_U8) == Ok(b);
    assert Accumulate(p, 0, MAX_U8) == Ok(b);
  }

  /** The hex body of `se_vu8_to_hex`: two lower-case digits per byte. */
  function EncodeBytes(bs: seq<u8>): (r: string)
    ensures |r| == 2 * |bs|
  {
    if |bs| == 0 then [] else LowerPair(bs[0]) + EncodeBytes(bs[1..])
  }

  lemma {:induction false} EncodeBytesSnoc(bs: seq<u8>, b: u8)
    ensures EncodeBytes(bs + [b]) == EncodeBytes(bs) + LowerPair(b)
  {
    if |bs| > 0 {
      assert (bs + [b])[1..] == bs[1..] + [b];
      EncodeBytesSnoc(bs[1..], b);
    } else {
      assert (bs + [b])[1..] == [];
    }
  }

  /** Each byte `i` is printed at characters `2i` and `2i + 1`. */
  lemma {:induction false} EncodeBytesAt(bs: seq<u8>, i: nat)
    requires i < |bs|
    ensures EncodeBytes(bs)[2 * i .. 2 * i + 2] == LowerPair(bs[i])
  {
    if i > 0 {
      EncodeBytesAt(bs[1..], i - 1);
      assert EncodeBytes(bs) == LowerPair(bs[0]) + EncodeBytes(bs[1..]);
    }
  }

  /** `se_vu8_to_hex`: start from `0x` and push two digits per byte. */
  method SeVu8ToHex(val: seq<u8>) returns (hexString: string)
    ensures hexString == "0x" + EncodeBytes(val)
    ensures |hexString| == 2 + 2 * |val|
  {
    hexString := "0x";
    var i := 0;
    while i < |val|
      invariant 0 <= i <= |val|
      invariant hexString == "0x" + EncodeBytes(val[..i])
    {
      EncodeBytesSnoc(val[..i], val[i]);
      assert val[..i + 1] == val[..i] + [val[i]];
      hexString := hexString + LowerPair(val[i]);
      i := i + 1;
    }
    assert val[..i] == val;
  }

  /** The `map`/`collect` of the byte decoders: characters `2i, 2i + 1` are
      parsed as a `u8`; the first pair that fails decides the error. */
  function DecodePairs(body: string): (r: Result<seq<u8>, IntErrorKind>)
    requires |body| % 2 == 0
  {
    if |body| == 0 then Ok([])
    else match FromStrRadix16(body[..2], MAX_U8)
      case Err(k) => Err(k)
      case Ok(b) =>
        match DecodePairs(body[2..])
        case Err(k) => Err(k)
        case Ok(rest) => Ok([b] + rest)
  }

  /** Pair `i` of a body is pair `i - 1` of the body without its first pair. */
  lemma PairOfTail(body: string, i: nat)
    requires 1 <= i && 2 * i + 2 <= |body|
    ensures body[2 * i .. 2 * i + 2] == body[2..][2 * (i - 1) .. 2 * (i - 1) + 2]
  {
  }

  /** A body decodes exactly when every pair parses, into one byte per pair,
      byte `i` being the value of characters `2i .. 2i + 2`. */
  lemma {:induction false} DecodePairsSpec(body: string)
    requires |body| % 2 == 0
    ensures DecodePairs(body).Ok? <==>
      forall i :: 0 <= i < |body| / 2 ==> FromStrRadix16(body[2 * i .. 2 * i + 2], MAX_U8).Ok?
    ensures DecodePairs(body).Ok? ==>
      |DecodePairs(body).value| == |body| / 2 &&
      forall i :: 0 <= i < |body| / 2 ==>
        FromStrRadix16(body[2 * i .. 2 * i + 2], MAX_U8) == Ok(DecodePairs(body).value[i])
  {
    if |body| > 0 {
      var tail := body[2..];
      DecodePairsSpec(tail);
      forall i | 1 <= i < |body| / 2
        ensures body[2 * i .. 2 * i + 2] == tail[2 * (i - 1) .. 2 * (i - 1) + 2]
      {
        PairOfTail(body, i);
      }
      if DecodePairs(body).Ok? {
        var r := DecodePairs(body).value;
        assert r[1..] == DecodePairs(tail).value;
        forall i | 0 <= i < |body| / 2
          ensures FromStrRadix16(body[2 * i .. 2 * i + 2], MAX_U8).Ok?
          ensures FromStrRadix16(body[2 * i .. 2 * i + 2], MAX_U8) == Ok(r[i])
        {
          if i == 0 {
            assert body[2 * i .. 2 * i + 2] == body[..2];
          } else {
            assert r[i] == r[1..][i - 1];
          }
        }
      } else if FromStrRadix16(body[..2], MAX_U8).Ok? {
        assert !DecodePairs(tail).Ok?;
        var j :| 0 <= j < |tail| / 2 && !FromStrRadix16(tail[2 * j .. 2 * j + 2], MAX_U8).Ok?;
        assert body[2 * (j + 1) .. 2 * (j + 1) + 2] == tail[2 * j .. 2 * j + 2];
      } else {
        assert body[2 * 0 .. 2 * 0 + 2] == body[..2];
      }
    }
  }

  /** Pair `j` of an even body is the first whose parse fails, failing
      with `k`. */
  predicate FirstFailingPair(body: string, j: nat, k: IntErrorKind)
  {
    && 2 * j + 2 <= |body|
    && (forall i :: 0 <= i < j ==> FromStrRadix16(body[2 * i .. 2 * i + 2], MAX_U8).Ok?)
    && FromStrRadix16(body[2 * j .. 2 * j + 2], MAX_U8) == Err(k)
  }

  /** The first failing pair of the tail, after a first pair that parses, is
      the first failing pair of the whole body. */
  lemma FirstFailingPairOfTail(body: string, j: nat, k: IntErrorKind)
    requires |body| >= 2 && FromStrRadix16(body[..2], MAX_U8).Ok?
    requires FirstFailingPair(body[2..], j, k)
    ensures FirstFailingPair(body, j + 1, k)
  {
    forall i | 0 <= i < j + 1
      ensures FromStrRadix16(body[2 * i .. 2 * i + 2], MAX_U8).Ok?
    {
      if i > 0 {
        PairOfTail(body, i);
        assert FromStrRadix16(body[2..][2 * (i - 1) .. 2 * (i - 1) + 2], MAX_U8).Ok?;
      } else {
        assert body[2 * i .. 2 * i + 2] == body[..2];
      }
    }
    PairOfTail(body, j + 1);
  }

  /** When decoding fails, its error is that of the first pair that fails. */
  lemma {:induction false} DecodePairsFirstError(body: string)
    requires |body| % 2 == 0
    ensures DecodePairs(body).Err? ==> exists j :: FirstFailingPair(body, j, DecodePairs(body).error)
  {
    if |body| > 0 && DecodePairs(body).Err? {
      assert body[2 * 0 .. 2 * 0 + 2] == body[..2];
      if FromStrRadix16(body[..2], MAX_U8).Ok? {
        var tail := body[2..];
        DecodePairsFirstError(tail);
        assert DecodePairs(tail).Err? && DecodePairs(body).error == DecodePairs(tail).error;
        var j: nat :| FirstFailingPair(tail, j, DecodePairs(tail).error);
        FirstFailingPairOfTail(body, j, DecodePairs(tail).error);
      } else {
        assert FirstFailingPair(body, 0, DecodePairs(body).error);
      }
    }
  }

  lemma {:induction false} DecodeEncodedPairs(bs: seq<u8>)
    ensures DecodePairs(EncodeBytes(bs)) == Ok(bs)
  {
    if |bs| > 0 {
      var s := EncodeBytes(bs);
      assert s[..2] == LowerPair(bs[0]);
      assert s[2..] == EncodeBytes(bs[1..]);
      PairParses(bs[0]);
      DecodeEncodedPairs(bs[1..]);
      assert [bs[0]] + bs[1..] == bs;
    }
  }

  /** `de_hex_to_vu8`: drop `0x`, refuse an odd-length body, decode pairs.
      An even body decodes exactly when every pair of characters parses as
      a `u8`, byte `i` being the value of characters `2i .. 2i + 2`;
      otherwise the first pair that fails gives the error. */
  function DeHexToVu8(s: string): (r: Result<seq<u8>, HexError>)
    ensures |StripPrefix(s)| % 2 != 0 ==> r == Err(OddLength)
    ensures |StripPrefix(s)| % 2 == 0 ==> (r.Ok? <==>
      forall i :: 0 <= i < |StripPrefix(s)| / 2 ==>
        FromStrRadix16(StripPrefix(s)[2 * i .. 2 * i + 2], MAX_U8).Ok?)
    ensures r.Ok? ==> 2 * |r.value| == |StripPrefix(s)|
    ensures r.Ok? ==> forall i :: 0 <= i < |StripPrefix(s)| / 2 ==>
      FromStrRadix16(StripPrefix(s)[2 * i .. 2 * i + 2], MAX_U8) == Ok(r.value[i])
    ensures |StripPrefix(s)| % 2 == 0 && r.Err? ==>
      r.error.BadInt? && exists j :: FirstFailingPair(StripPrefix(s), j, r.error.kind)
    ensures StripPrefix(s) == "" ==> r == Ok([])
  {
    var body := StripPrefix(s);
    if |body| % 2 != 0 then Err(OddLength)
    else
      DecodePairsSpec(body);
      DecodePairsFirstError(body);
      match DecodePairs(body)
      case Ok(v) => Ok(v)
      case Err(k) => Err(BadInt(k))
  }

  lemma Vu8RoundTrip(bs: seq<u8>)
    ensures DeHexToVu8("0x" + EncodeBytes(bs)) == Ok(bs)
  {
    var e := EncodeBytes(bs);
    var s := "0x" + e;
    assert s[..2] == "0x" && s[2..] == e;
    assert StripPrefix(s) == e;
    assert |e| % 2 == 0;
    DecodeEncodedPairs(bs);
  }

  /** `de_hex_to_ovu8`: the same steps as `de_hex_to_vu8`, the bytes then
      wrapped in `Some`. */
  function DeHexToOvu8(s: string): (r: Result<Option<seq<u8>>, HexError>)
    ensures r.Ok? ==> r.value.Some?
  {
    var body := StripPrefix(s);
    if |body| % 2 != 0 then Err(OddLength)
    else match DecodePairs(body)
      case Ok(v) => Ok(Some(v))
      case Err(k) => Err(BadInt(k))
  }

  lemma Ovu8AgreesWithVu8(s: string)
    ensures DeHexToOvu8(s).Ok? <==> DeHexToVu8(s).Ok?
    ensures DeHexToOvu8(s).Ok? ==> DeHexToOvu8(s).value == Some(DeHexToVu8(s).value)
    ensures DeHexToOvu8(s).Err? ==> DeHexToOvu8(s).error == DeHexToVu8(s).error
  {
  }

  /** `se_ovu8_to_hex`: `Some(v)` is written as `se_vu8_to_hex(v)` writes
      it (the text `SeVu8ToHex` returns), `None` as `null`. */
  function SeOvu8ToHex(val: Option<seq<u8>>): (r: Json)
    ensures val.None? <==> r == JNull
    ensures val.Some? ==> r == JString("0x" + EncodeBytes(val.value))
    ensures val.Some? ==> r.JString? && DeHexToOvu8(r.s) == Ok(val)
  {
    match val
    case None => JNull
    case Some(v) => Vu8RoundTrip(v); JString("0x" + EncodeBytes(v))
  }

  /** `get_none`: the value of `original_bytes` when its key is missing. */
  function GetNone<T>(): Option<T>
  {
    None
  }

  /** ASCII lower-casing, the only difference the digit parser ignores. */
  function ToLowerAscii(c: char): char
  {
    if 'A' <= c <= 'Z' then (c as int - 'A' as int + 'a' as int) as char else c
  }

  predicate SameIgnoringCase(s: string, t: string)
  {
    |s| == |t| && forall i :: 0 <= i < |s| ==> ToLowerAscii(s[i]) == ToLowerAscii(t[i])
  }

  lemma DigitValueIgnoresCase(c: char, d: char)
    requires ToLowerAscii(c) == ToLowerAscii(d)
    ensures DigitValue(c) == DigitValue(d)
  {
  }

  lemma {:induction false} AccumulateIgnoresCase(s: string, t: string, acc: nat, max: nat)
    requires acc <= max && SameIgnoringCase(s, t)
    ensures Accumulate(s, acc, max) == Accumulate(t, acc, max)
  {
    if |s| > 0 {
      DigitValueIgnoresCase(s[0], t[0]);
      match DigitValue(s[0])
      case None =>
      case Some(d) =>
        if acc * 16 + d <= max {
          assert SameIgnoringCase(s[1..], t[1..]) by {
            forall i | 0 <= i < |s| - 1 ensures ToLowerAscii(s[1..][i]) == ToLowerAscii(t[1..][i]) {
              assert s[1..][i] == s[i + 1] && t[1..][i] == t[i + 1];
            }
          }
          AccumulateIgnoresCase(s[1..], t[1..], acc * 16 + d, max);
        }
    }
  }

  /** The digit parser does not see the case of the letters it reads. */
  lemma FromStrRadix16IgnoresCase(s: string, t: string, max: nat)
    requires SameIgnoringCase(s, t)
    ensures FromStrRadix16(s, max) == FromStrRadix16(t, max)
  {
    if |s| > 0 {
      assert ToLowerAscii(s[0]) == ToLowerAscii(t[0]);
      assert s[0] == '+' <==> t[0] == '+';
      assert s[0] == '-' <==> t[0] == '-';
      var ds := if s[0] == '+' then s[1..] else s;
      var dt := if t[0] == '+' then t[1..] else t;
      assert SameIgnoringCase(ds, dt) by {
        if s[0] == '+' {
          forall i | 0 <= i < |ds| ensures ToLowerAscii(ds[i]) == ToLowerAscii(dt[i]) {
            assert ds[i] == s[i + 1] && dt[i] == t[i + 1];
          }
        }
      }
      AccumulateIgnoresCase(ds, dt, 0, max);
    }
  }

  /** Byte-string bodies that differ only in letter case decode alike. */
  lemma {:induction false} DecodePairsIgnoresCase(s: string, t: string)
    requires SameIgnoringCase(s, t) && |s| % 2 == 0
    ensures DecodePairs(s) == DecodePairs(t)
  {
    if |s| > 0 {
      assert SameIgnoringCase(s[..2], t[..2]) by {
        assert s[..2][0] == s[0] && s[..2][1] == s[1] && t[..2][0] == t[0] && t[..2][1] == t[1];
      }
      FromStrRadix16IgnoresCase(s[..2], t[..2], MAX_U8);
      assert SameIgnoringCase(s[2..], t[2..]) by {
        forall i | 0 <= i < |s| - 2 ensures ToLowerAscii(s[2..][i]) == ToLowerAscii(t[2..][i]) {
          assert s[2..][i] == s[i + 2] && t[2..][i] == t[i + 2];
        }
      }
      DecodePairsIgnoresCase(s[2..], t[2..]);
    }
  }

  /** Proof step of `ByteStringExamples`: "1A2B" read two digits at a time.
      It and `LowerPairsExample` are separate lemmas only to keep each
      proof small for the solver. */
  lemma UpperPairsExample()
    ensures DecodePairs("1A2B") == Ok([0x1A, 0x2B])
  {
    assert "1A2B"[..2] == "1A" && "1A2B"[2..] == "2B" && "2B"[..2] == "2B" && "2B"[2..] == [];
    assert "1A"[1..] == "A" && "2B"[1..] == "B" && "A"[1..] == [] && "B"[1..] == [];
    assert Accumulate("A", 1, MAX_U8) == Ok(0x1A) && Accumulate("B", 2, MAX_U8) == Ok(0x2B);
    assert FromStrRadix16("1A", MAX_U8) == Ok(0x1A) && FromStrRadix16("2B", MAX_U8) == Ok(0x2B);
    assert DecodePairs("2B"[2..]) == Ok([]);
    assert [0x2B as u8] + [] == [0x2B];
    assert DecodePairs("2B") == Ok([0x2B]);
    assert [0x1A] + [0x2B] == [0x1A, 0x2B];
  }

  /** Proof step of `ByteStringExamples`: the same digits in lower case. */
  lemma LowerPairsExample()
    ensures DecodePairs("1a2b") == Ok([0x1A, 0x2B])
  {
    assert "1a2b"[..2] == "1a" && "1a2b"[2..] == "2b" && "2b"[..2] == "2b" && "2b"[2..] == [];
    assert "1a"[1..] == "a" && "2b"[1..] == "b" && "a"[1..] == [] && "b"[1..] == [];
    assert Accumulate("a", 1, MAX_U8) == Ok(0x1A) && Accumulate("b", 2, MAX_U8) == Ok(0x2B);
    assert FromStrRadix16("1a", MAX_U8) == Ok(0x1A) && FromStrRadix16("2b", MAX_U8) == Ok(0x2B);
    assert DecodePairs("2b"[2..]) == Ok([]);
    assert [0x2B as u8] + [] == [0x2B];
    assert DecodePairs("2b") == Ok([0x2B]);
    assert [0x1A] + [0x2B] == [0x1A, 0x2B];
  }

  /** The examples the patch format is documented with: the prefix is
      optional, the digits' case does not matter, and an odd body is
      refused. */
  lemma ByteStringExamples()
    ensures DeHexToVu8("0x1A2B") == Ok([0x1A, 0x2B])
    ensures DeHexToVu8("1a2b") == Ok([0x1A, 0x2B])
    ensures DeHexToVu8("0x1A2") == Err(OddLength)
    ensures DeHexToVu8("0x") == Ok([])
  {
    UpperPairsExample();
    LowerPairsExample();
    assert StripPrefix("0x1A2B") == "1A2B";
    assert StripPrefix("0x1A2") == "1A2";
    assert StripPrefix("0x") == "";
  }

  /** The last four digits of the offset below. */
  lemma OffsetTailExample()
    ensures Accumulate("48E0", 0x15, MAX_U32) == Ok(0x1548E0)
  {
    var u := "48E0";
    assert u[1..] == "8E0" && u[2..] == "E0" && u[3..] == "0" && u[4..] == [];
    assert Accumulate(u[4..], 0x1548E0, MAX_U32) == Ok(0x1548E0);
    assert Accumulate(u[3..], 0x1548E, MAX_U32) == Ok(0x1548E0);
    assert Accumulate(u[2..], 0x1548, MAX_U32) == Ok(0x1548E0);
    assert Accumulate(u[1..], 0x154, MAX_U32) == Ok(0x1548E0);
  }

  lemma OffsetExample()
    ensures DeHexToU32("0x001548E0") == Ok(0x1548E0)
  {
    var u := "001548E0";
    assert StripPrefix("0x001548E0") == u;
    assert u[1..] == "01548E0" && u[2..] == "1548E0" && u[3..] == "548E0" && u[4..] == "48E0";
    OffsetTailExample();
    assert Accumulate(u[3..], 0x1, MAX_U32) == Ok(0x1548E0);
    assert Accumulate(u[2..], 0, MAX_U32) == Ok(0x1548E0);
    assert Accumulate(u[1..], 0, MAX_U32) == Ok(0x1548E0);
    assert Accumulate(u, 0, MAX_U32) == Ok(0x1548E0);
  }

  lemma PrefixExamples()
    ensures DeHexToU32("0X10") == Err(BadInt(InvalidDigit))
    ensures DeHexToU32("0x+10") == Ok(0x10)
    ensures DeHexToU32("0x") == Err(BadInt(Empty))
  {
    assert StripPrefix("0x") == "";
    assert StripPrefix("0X10") == "0X10";
    assert "0X10"[1..] == "X10";
    assert Accumulate("0X10", 0, MAX_U32) == Err(InvalidDigit);
    assert StripPrefix("0x+10") == "+10";
    assert "+10"[1..] == "10" && "10"[1..] == "0" && "0"[1..] == [];
    assert Accumulate("0", 1, MAX_U32) == Ok(0x10);
  }

  /** Five zeros after 0x1000 overflow a u32. */
  lemma OverflowTailExample()
    ensures Accumulate("00000", 0x1000, MAX_U32) == Err(PosOverflow)
  {
    var o := "00000";
    assert o[4..] == "0" && o[3..] == "00" && o[2..] == "000" && o[1..] == "0000";
    assert Accumulate(o[4..], 0x1000_0000, MAX_U32) == Err(PosOverflow);
    assert Accumulate(o[3..], 0x100_0000, MAX_U32) == Err(PosOverflow);
    assert Accumulate(o[2..], 0x10_0000, MAX_U32) == Err(PosOverflow);
    assert Accumulate(o[1..], 0x1_0000, MAX_U32) == Err(PosOverflow);
  }

  lemma OverflowExample()
    ensures DeHexToU32("0x100000000") == Err(BadInt(PosOverflow))
  {
    var o := "100000000";
    assert StripPrefix("0x100000000") == o;
    assert o[4..] == "00000" && o[3..] == "000000" && o[2..] == "0000000" && o[1..] == "00000000";
    OverflowTailExample();
    assert Accumulate(o[3..], 0x100, MAX_U32) == Err(PosOverflow);
    assert Accumulate(o[2..], 0x10, MAX_U32) == Err(PosOverflow);
    assert Accumulate(o[1..], 0x1, MAX_U32) == Err(PosOverflow);
    assert Accumulate(o, 0, MAX_U32) == Err(PosOverflow);
  }
}
