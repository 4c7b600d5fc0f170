/**
  core/utils.py: the block padding inside `encrypt`/`decrypt` and their
  composition with the cipher primitives, the duration parser
  `text_to_seconds` and the duration formatter `period`.
*/
module Utils {
  import opened Wrappers
  import opened PyStr

  newtype byte = x: int | 0 <= x < 256

  type Bytes = seq<byte>

  /** `AES.block_size`. */
  const BlockSize := 16

  /** `bytes([b]) * n`. */
  function Repeat(b: byte, n: nat): (r: Bytes)
    ensures |r| == n && forall i :: 0 <= i < n ==> r[i] == b
  {
    seq(n, _ => b)
  }

  // ---------------------------------------------------------------- padding

  /** The padding `encrypt` appends: `16 - len % 16` copies of that same count. */
  function Pad(source: Bytes): (r: Bytes)
    ensures |r| % BlockSize == 0
    ensures |source| < |r| <= |source| + BlockSize
    ensures r[..|source|] == source
    ensures forall i :: |source| <= i < |r| ==> r[i] as int == |r| - |source|
  {
    var padding := BlockSize - |source| % BlockSize;
    source + Repeat(padding as byte, padding)
  }

  /** `data[-p:]`, where `-0` is `0` and a bound past the start is clamped. */
  function PyTail(data: Bytes, p: nat): Bytes
  {
    if p == 0 || p >= |data| then data else data[|data| - p..]
  }

  /**
    The check and strip `decrypt` applies after AES: `None` when `data[-1]`
    raises (empty data) or when the last `p` bytes are not all `p`.
  */
  function Unpad(data: Bytes): Option<Bytes>
  {
    if |data| == 0 then None
    else
      var padding := data[|data| - 1] as int;
      if PyTail(data, padding) != Repeat(padding as byte, padding) then None
      else Some(data[..|data| - padding])
  }

  /**
    Unpad accepts exactly when the last byte `p` is between 1 and the length
    and the last `p` bytes all equal `p`; it is not bounded by the block size.
  */
  lemma {:induction false} UnpadAccepts(data: Bytes)
    ensures Unpad(data).Some? <==>
      && |data| > 0
      && 1 <= data[|data| - 1] as int <= |data|
      && forall i :: |data| - data[|data| - 1] as int <= i < |data| ==> data[i] == data[|data| - 1]
    ensures Unpad(data).Some? ==> Unpad(data).value == data[..|data| - data[|data| - 1] as int]
  {
    if |data| > 0 {
      var p := data[|data| - 1] as int;
      if 1 <= p <= |data| && forall i :: |data| - p <= i < |data| ==> data[i] == data[|data| - 1] {
        assert PyTail(data, p) == Repeat(p as byte, p);
      }
    }
  }

  /** Stripping the padding gives back what was padded. */
  lemma {:induction false} UnpadPad(source: Bytes)
    ensures Unpad(Pad(source)) == Some(source)
  {
    var r := Pad(source);
    var p := |r| - |source|;
    assert r[|r| - 1] as int == p;
    assert PyTail(r, p) == Repeat(p as byte, p);
  }

  /** A pad byte larger than the block size is accepted: 20 bytes of value 20 unpad to nothing. */
  lemma {:induction false} UnpadAcceptsLongPadding()
    ensures Unpad(Repeat(20, 20)) == Some([])
  {
    assert PyTail(Repeat(20, 20), 20) == Repeat(20, 20);
  }

  // ---------------------------------------------------------------- cipher

  /**
    The library functions `encrypt` and `decrypt` call: UTF-8 encoding and
    decoding, SHA-256, AES-CBC and base64 (with the latin-1 step between bytes
    and text). A decoder returns `None` where the library raises.
  */
  datatype Primitives = Primitives(
    utf8Encode: string -> Bytes,
    utf8Decode: Bytes -> Option<string>,
    sha256: Bytes -> Bytes,
    aesEncrypt: (Bytes, Bytes, Bytes) -> Bytes,
    aesDecrypt: (Bytes, Bytes, Bytes) -> Option<Bytes>,
    b64Encode: Bytes -> string,
    b64Decode: string -> Option<Bytes>)

  /**
    The round-trips the libraries provide: decoding undoes encoding, and AES
    decryption under the same key and IV undoes encryption of block-aligned data.
  */
  ghost predicate Sound(p: Primitives)
  {
    && (forall s :: p.utf8Decode(p.utf8Encode(s)) == Some(s))
    && (forall b :: p.b64Decode(p.b64Encode(b)) == Some(b))
    && (forall key, iv, data :: |iv| == BlockSize && |data| % BlockSize == 0 ==>
          p.aesDecrypt(key, iv, p.aesEncrypt(key, iv, data)) == Some(data))
  }

  /** `encrypt(key, source)`: the IV comes in as a parameter instead of from the random source. */
  function Encrypt(p: Primitives, key: string, iv: Bytes, source: string): string
    requires |iv| == BlockSize
  {
    var aesKey := p.sha256(p.utf8Encode(key));
    var data := Pad(p.utf8Encode(source));
    p.b64Encode(iv + p.aesEncrypt(aesKey, iv, data))
  }

  /** `decrypt(key, source)`: `None` wherever the source raises `ValueError`. */
  function Decrypt(p: Primitives, key: string, source: string): Option<string>
  {
    match p.b64Decode(source)
    case None => None
    case Some(raw) =>
      if |raw| < BlockSize then None  // AES.new rejects an IV shorter than a block
      else
        var aesKey := p.sha256(p.utf8Encode(key));
        match p.aesDecrypt(aesKey, raw[..BlockSize], raw[BlockSize..])
        case None => None
        case Some(data) =>
          match Unpad(data)
          case None => None
          case Some(plain) => p.utf8Decode(plain)
  }

  /** Decrypting with the key used to encrypt gives the plain text back. */
  lemma {:induction false} DecryptEncrypt(p: Primitives, key: string, iv: Bytes, source: string)
    requires Sound(p) && |iv| == BlockSize
    ensures Decrypt(p, key, Encrypt(p, key, iv, source)) == Some(source)
  {
    var aesKey := p.sha256(p.utf8Encode(key));
    var data := Pad(p.utf8Encode(source));
    var raw := iv + p.aesEncrypt(aesKey, iv, data);
    assert raw[..BlockSize] == iv && raw[BlockSize..] == p.aesEncrypt(aesKey, iv, data);
    UnpadPad(p.utf8Encode(source));
  }

  // ---------------------------------------------------------------- text_to_seconds

  /** `text_to_seconds` raises once the running total reaches this many seconds. */
  const SecondsLimit := 100_00_000_000

  /** The seconds per unit for the last character of a token, compared after lowercasing; 0 when it is no unit. */
  function UnitSeconds(unit: char): int
  {
    if unit == 's' || unit == 'S' then 1
    else if unit == 'm' || unit == 'M' then 60
    else if unit == 'h' || unit == 'H' then 3600
    else if unit == 'd' || unit == 'D' then 86400
    else if unit == 'y' || unit == 'Y' then 525_600 * 60
    else 0
  }

  /** What one token adds: `int(prefix)` times its unit; `None` when `int` raises. */
  function TokenSeconds(token: string): Option<int>
    requires |token| > 0
  {
    match ParseInt(token[..|token| - 1])
    case None => None
    case Some(value) => Some(value * UnitSeconds(token[|token| - 1]))
  }

  predicate NonEmptyTokens(tokens: seq<string>)
  {
    forall i :: 0 <= i < |tokens| ==> |tokens[i]| > 0
  }

  /** The loop of `text_to_seconds` from a running total `seconds`; `None` is `ValueError`. */
  function Accumulate(tokens: seq<string>, seconds: int): Option<int>
    requires NonEmptyTokens(tokens)
    decreases |tokens|
  {
    if |tokens| == 0 then Some(seconds)
    else
      match TokenSeconds(tokens[0])
      case None => None
      case Some(v) =>
        if seconds + v >= SecondsLimit then None else Accumulate(tokens[1..], seconds + v)
  }

  /** Every token's prefix parses as an integer. */
  ghost predicate AllParse(tokens: seq<string>)
    requires NonEmptyTokens(tokens)
  {
    forall i :: 0 <= i < |tokens| ==> TokenSeconds(tokens[i]).Some?
  }

  /** Reference definition: the plain sum of what the tokens add. */
  ghost function Total(tokens: seq<string>): int
    requires NonEmptyTokens(tokens) && AllParse(tokens)
    decreases |tokens|
  {
    if |tokens| == 0 then 0 else TokenSeconds(tokens[0]).value + Total(tokens[1..])
  }

  /**
    The loop succeeds exactly when every token parses and every running total
    stays below the limit, and then it returns the sum.
  */
  lemma {:induction false} AccumulateMeaning(tokens: seq<string>, seconds: int)
    requires NonEmptyTokens(tokens)
    ensures Accumulate(tokens, seconds).Some? <==>
      AllParse(tokens) && forall n :: 1 <= n <= |tokens| ==> seconds + Total(tokens[..n]) < SecondsLimit
    ensures Accumulate(tokens, seconds).Some? ==> Accumulate(tokens, seconds).value == seconds + Total(tokens)
    decreases |tokens|
  {
    if |tokens| > 0 {
      var rest := tokens[1..];
      AllParseCons(tokens);
      match TokenSeconds(tokens[0])
      case None =>
      case Some(v) =>
        AccumulateMeaning(rest, seconds + v);
        if AllParse(tokens) {
          forall n | 1 <= n <= |tokens|
            ensures Total(tokens[..n]) == v + Total(rest[..n - 1])
          {
            TotalPrefix(tokens, n);
          }
          if seconds + v >= SecondsLimit {
            assert seconds + Total(tokens[..1]) >= SecondsLimit;
          } else if Accumulate(rest, seconds + v).None? {
            var n :| 1 <= n <= |rest| && seconds + v + Total(rest[..n]) >= SecondsLimit;
            assert seconds + Total(tokens[..n + 1]) >= SecondsLimit;
          }
        }
    }
  }

  /** Every token parses exactly when the first does and every later one does. */
  lemma {:induction false} AllParseCons(tokens: seq<string>)
    requires NonEmptyTokens(tokens) && |tokens| > 0
    ensures NonEmptyTokens(tokens[1..])
    ensures AllParse(tokens) <==> TokenSeconds(tokens[0]).Some? && AllParse(tokens[1..])
  {
    var rest := tokens[1..];
    if TokenSeconds(tokens[0]).Some? && AllParse(rest) {
      forall i | 0 <= i < |tokens| ensures TokenSeconds(tokens[i]).Some? {
        if i > 0 { assert tokens[i] == rest[i - 1]; }
      }
    }
    if AllParse(tokens) {
      forall i | 0 <= i < |rest| ensures TokenSeconds(rest[i]).Some? {
        assert rest[i] == tokens[i + 1];
      }
    }
  }

  /** The sum of the first `n` tokens is the first token's value plus the sum of the next `n - 1`. */
  lemma {:induction false} TotalPrefix(tokens: seq<string>, n: nat)
    requires NonEmptyTokens(tokens) && AllParse(tokens) && 1 <= n <= |tokens|
    ensures NonEmptyTokens(tokens[1..]) && AllParse(tokens[1..])
    ensures Total(tokens[..n]) == TokenSeconds(tokens[0]).value + Total(tokens[1..][..n - 1])
  {
    AllParseCons(tokens);
    var prefix := tokens[..n];
    assert prefix[0] == tokens[0] && prefix[1..] == tokens[1..][..n - 1];
    AllParseCons(prefix);
  }

  /** Any value the loop returns is below the limit. */
  lemma {:induction false} AccumulateBelowLimit(tokens: seq<string>, seconds: int)
    requires NonEmptyTokens(tokens) && seconds < SecondsLimit
    ensures Accumulate(tokens, seconds).Some? ==> Accumulate(tokens, seconds).value < SecondsLimit
    decreases |tokens|
  {
    if |tokens| > 0 {
      match TokenSeconds(tokens[0])
      case None =>
      case Some(v) =>
        if seconds + v < SecondsLimit {
          AccumulateBelowLimit(tokens[1..], seconds + v);
        }
    }
  }

  /** A token of one character has an empty prefix, which `int` rejects. */
  lemma {:induction false} BareUnitRejected(token: string)
    requires |token| == 1
    ensures TokenSeconds(token).None?
  {
  }

  /** One turn of the loop: the token at `i` is added, or the loop stops with `None`. */
  lemma {:induction false} AccumulateStep(tokens: seq<string>, i: nat, seconds: int)
    requires NonEmptyTokens(tokens) && i < |tokens|
    ensures Accumulate(tokens[i..], seconds) ==
      match TokenSeconds(tokens[i])
      case None => None
      case Some(v) => if seconds + v >= SecondsLimit then None else Accumulate(tokens[i + 1..], seconds + v)
  {
    assert tokens[i..][0] == tokens[i] && tokens[i..][1..] == tokens[i + 1..];
  }

  /** `text_to_seconds(text)`; `None` is the `ValueError` it raises. */
  method TextToSeconds(text: string) returns (r: Option<int>)
    ensures r == Accumulate(Words(text), 0)
    ensures r.Some? ==> r.value < SecondsLimit
    ensures (forall i :: 0 <= i < |text| ==> IsSpace(text[i])) ==> r == Some(0)
  {
    r := AddUp(Words(text));
  }

  /** The loop of `text_to_seconds` over the whitespace-separated elements. */
  method AddUp(elements: seq<string>) returns (r: Option<int>)
    requires NonEmptyTokens(elements)
    ensures r == Accumulate(elements, 0)
    ensures r.Some? ==> r.value < SecondsLimit
  {
    var seconds := 0;
    var i := 0;
    while i < |elements|
      invariant 0 <= i <= |elements|
      invariant seconds < SecondsLimit
      invariant Accumulate(elements[i..], seconds) == Accumulate(elements, 0)
    {
      var element := elements[i];
      AccumulateStep(elements, i, seconds);
      var time := element[|element| - 1];
      var value := ParseInt(element[..|element| - 1]);
      if value.None? {
        return None;
      }
      seconds := seconds + value.value * UnitSeconds(time);
      if seconds >= SecondsLimit {
        return None;
      }
      i := i + 1;
    }
    assert elements[i..] == [];
    return Some(seconds);
  }

  // ---------------------------------------------------------------- period

  /** One printed component of a duration, such as `5 hours`. */
  datatype Component = Component(value: int, unit: string)

  /** `divmod(seconds, 3600)` then `divmod(rem, 60)`, as a clock reading. */
  function Clock(seconds: int): (hms: (int, int, int))
    requires 0 <= seconds < 86400
    ensures 0 <= hms.0 < 24 && 0 <= hms.1 < 60 && 0 <= hms.2 < 60
    ensures hms.0 * 3600 + hms.1 * 60 + hms.2 == seconds
  {
    var rem := seconds % 3600;
    (seconds / 3600, rem / 60, rem % 60)
  }

  /** Position of a unit in the printed order: days, hours, minutes, seconds. */
  function UnitRank(unit: string): int
  {
    if unit == "days" then 0 else if unit == "hours" then 1 else if unit == "minutes" then 2 else 3
  }

  /** Seconds in one of a printed unit. */
  function UnitLength(unit: string): int
  {
    if unit == "days" then 86400 else if unit == "hours" then 3600 else if unit == "minutes" then 60
    else if unit == "seconds" then 1 else 0
  }

  /** The duration the components add up to. */
  function PartsTotal(parts: seq<Component>): int
  {
    if parts == [] then 0 else parts[0].value * UnitLength(parts[0].unit) + PartsTotal(parts[1..])
  }

  /** The total of two runs of components is the sum of their totals. */
  lemma {:induction false} TotalAppend(a: seq<Component>, b: seq<Component>)
    ensures PartsTotal(a + b) == PartsTotal(a) + PartsTotal(b)
    decreases |a|
  {
    if a != [] {
      assert (a + b)[0] == a[0];
      assert (a + b)[1..] == a[1..] + b;
      TotalAppend(a[1..], b);
    } else {
      assert a + b == b;
    }
  }

  /**
    The components `period` prints for a `timedelta` of `days` days and
    `seconds` seconds (`0 <= seconds < 86400`, as `timedelta` normalises them).
  */
  function PeriodParts(days: int, seconds: int): (parts: seq<Component>)
    requires 0 <= seconds < 86400
    ensures forall i :: 0 <= i < |parts| ==> parts[i].value != 0
    ensures forall i :: 0 <= i < |parts| && parts[i].unit != "days" ==> 0 < parts[i].value < 60
    ensures days >= 1 ==> forall i :: 0 <= i < |parts| ==> parts[i].unit != "seconds"
    ensures parts == [] <==> days == 0 && seconds == 0
    ensures days != 0 ==> parts[0] == Component(days, "days")
    ensures InOrder(parts)
    ensures var (h, m, s) := Clock(seconds);
      && (Component(days, "days") in parts <==> days != 0)
      && (Component(h, "hours") in parts <==> h != 0)
      && (Component(m, "minutes") in parts <==> m != 0)
      && (Component(s, "seconds") in parts <==> s != 0 && days < 1)
    ensures var (h, m, s) := Clock(seconds);
      forall i :: 0 <= i < |parts| ==>
        parts[i].value == (if parts[i].unit == "days" then days else if parts[i].unit == "hours" then h
                           else if parts[i].unit == "minutes" then m else s)
    ensures PartsTotal(parts) == days * 86400 + seconds - (if days >= 1 then Clock(seconds).2 else 0)
  {
    var hms := Clock(seconds);
    var s := if days >= 1 then 0 else hms.2;
    var parts := Optional(days, "days") + Optional(hms.0, "hours") + Optional(hms.1, "minutes") + Optional(s, "seconds");
    PiecesInOrder(days, hms.0, hms.1, s);
    PiecesTotal(days, hms.0, hms.1, s);
    PiecesPrinted(days, hms.0, hms.1, s);
    PiecesBounded(days, hms.0, hms.1, s);
    parts
  }

  /** Components in the printed order, each of a known unit. */
  predicate InOrder(parts: seq<Component>)
  {
    && (forall i :: 0 <= i < |parts| ==> KnownUnit(parts[i]))
    && (forall i, j :: 0 <= i < j < |parts| ==> UnitRank(parts[i].unit) < UnitRank(parts[j].unit))
  }

  /** Appending an optional component of a later unit keeps the printed order. */
  lemma {:induction false} AppendInOrder(parts: seq<Component>, value: int, unit: string)
    requires InOrder(parts) && KnownUnit(Component(value, unit))
    requires forall i :: 0 <= i < |parts| ==> UnitRank(parts[i].unit) < UnitRank(unit)
    ensures InOrder(parts + Optional(value, unit))
    ensures forall i :: 0 <= i < |parts + Optional(value, unit)| ==> UnitRank((parts + Optional(value, unit))[i].unit) <= UnitRank(unit)
  {
  }

  /** An optional component adds its seconds to the total. */
  lemma {:induction false} AppendTotal(parts: seq<Component>, value: int, unit: string)
    ensures PartsTotal(parts + Optional(value, unit)) == PartsTotal(parts) + value * UnitLength(unit)
  {
    TotalAppend(parts, Optional(value, unit));
    if value != 0 {
      assert PartsTotal([Component(value, unit)]) == value * UnitLength(unit);
    }
  }

  /** An optional component is there exactly when its value is non-zero, and components of other units are untouched. */
  lemma {:induction false} AppendMembers(parts: seq<Component>, value: int, unit: string)
    ensures forall c: Component :: c.unit != unit ==> (c in parts + Optional(value, unit) <==> c in parts)
    ensures Component(value, unit) in parts + Optional(value, unit) <==> value != 0 || Component(value, unit) in parts
  {
  }

  /** Optional days, hours, minutes and seconds come in the printed order. */
  lemma {:induction false} PiecesInOrder(days: int, h: int, m: int, s: int)
    ensures InOrder(Optional(days, "days") + Optional(h, "hours") + Optional(m, "minutes") + Optional(s, "seconds"))
  {
    assert UnitRank("days") == 0 && UnitRank("hours") == 1 && UnitRank("minutes") == 2 && UnitRank("seconds") == 3 by {
      assert |"days"| == 4 && |"hours"| == 5 && "minutes"[0] != "seconds"[0];
    }
    var p0 := Optional(days, "days");
    assert InOrder(p0) && forall i :: 0 <= i < |p0| ==> UnitRank(p0[i].unit) < 1 by {
      if days != 0 {
        assert p0 == [Component(days, "days")];
        assert KnownUnit(p0[0]);
      }
    }
    var p1 := p0 + Optional(h, "hours");
    assert InOrder(p1) && forall i :: 0 <= i < |p1| ==> UnitRank(p1[i].unit) < 2 by {
      AppendInOrder(p0, h, "hours");
    }
    var p2 := p1 + Optional(m, "minutes");
    assert InOrder(p2) && forall i :: 0 <= i < |p2| ==> UnitRank(p2[i].unit) < 3 by {
      AppendInOrder(p1, m, "minutes");
    }
    assert InOrder(p2 + Optional(s, "seconds")) by {
      AppendInOrder(p2, s, "seconds");
    }
  }

  /** Optional days, hours, minutes and seconds add up to the duration. */
  lemma {:induction false} PiecesTotal(days: int, h: int, m: int, s: int)
    ensures PartsTotal(Optional(days, "days") + Optional(h, "hours") + Optional(m, "minutes") + Optional(s, "seconds"))
      == days * 86400 + h * 3600 + m * 60 + s
  {
    var p0 := Optional(days, "days");
    AppendTotal([], days, "days");
    assert [] + p0 == p0;
    var p1 := p0 + Optional(h, "hours");
    AppendTotal(p0, h, "hours");
    AppendTotal(p1, m, "minutes");
    AppendTotal(p1 + Optional(m, "minutes"), s, "seconds");
  }

  /** Every optional component is non-zero, and below 60 unless it counts days. */
  lemma {:induction false} PiecesBounded(days: int, h: int, m: int, s: int)
    requires 0 <= h < 60 && 0 <= m < 60 && 0 <= s < 60
    ensures var parts := Optional(days, "days") + Optional(h, "hours") + Optional(m, "minutes") + Optional(s, "seconds");
      && (forall i :: 0 <= i < |parts| ==> parts[i].value != 0)
      && (forall i :: 0 <= i < |parts| && parts[i].unit != "days" ==> 0 < parts[i].value < 60)
      && (s == 0 ==> forall i :: 0 <= i < |parts| ==> parts[i].unit != "seconds")
      && (forall i :: 0 <= i < |parts| ==>
            parts[i].value == (if parts[i].unit == "days" then days else if parts[i].unit == "hours" then h
                               else if parts[i].unit == "minutes" then m else s))
  {
    assert |"days"| == 4 && |"hours"| == 5 && "minutes"[0] != "seconds"[0];
    var p0 := Optional(days, "days");
    var p1 := p0 + Optional(h, "hours");
    var p2 := p1 + Optional(m, "minutes");
    assert forall i :: 0 <= i < |p2| ==> p2[i].value != 0 && (p2[i].unit != "days" ==> 0 < p2[i].value < 60) && p2[i].unit != "seconds";
  }

  /** Each of the optional days, hours, minutes and seconds is printed exactly when it is non-zero. */
  lemma {:induction false} PiecesPrinted(days: int, h: int, m: int, s: int)
    ensures var parts := Optional(days, "days") + Optional(h, "hours") + Optional(m, "minutes") + Optional(s, "seconds");
      && (Component(days, "days") in parts <==> days != 0)
      && (Component(h, "hours") in parts <==> h != 0)
      && (Component(m, "minutes") in parts <==> m != 0)
      && (Component(s, "seconds") in parts <==> s != 0)
      && (parts == [] <==> days == 0 && h == 0 && m == 0 && s == 0)
      && (days != 0 ==> parts[0] == Component(days, "days"))
  {
    var p0 := Optional(days, "days");
    AppendMembers([], days, "days");
    assert [] + p0 == p0;
    var p1 := p0 + Optional(h, "hours");
    AppendMembers(p0, h, "hours");
    var p2 := p1 + Optional(m, "minutes");
    AppendMembers(p1, m, "minutes");
    var p3 := p2 + Optional(s, "seconds");
    AppendMembers(p2, s, "seconds");
    assert |"days"| == 4 && |"hours"| == 5 && "minutes"[0] != "seconds"[0];
    var dc, hc, mc, sc := Component(days, "days"), Component(h, "hours"), Component(m, "minutes"), Component(s, "seconds");
    assert dc in p3 <==> dc in p0;
    assert hc in p3 <==> hc in p1;
    assert hc !in p0;
    assert mc in p3 <==> mc in p2;
    assert mc !in p1;
    assert sc !in p2;
  }

  function Render(c: Component): string
  {
    IntToString(c.value) + " " + c.unit
  }

  /** `" ".join` of the rendered components. */
  function Phrase(parts: seq<Component>): string
    decreases |parts|
  {
    if |parts| == 0 then ""
    else if |parts| == 1 then Render(parts[0])
    else Phrase(parts[..|parts| - 1]) + " " + Render(parts[|parts| - 1])
  }

  predicate KnownUnit(c: Component)
  {
    c.unit in ["days", "hours", "minutes", "seconds"]
  }

  /** A phrase of known components neither starts nor ends with whitespace and is empty only when there are no components. */
  lemma {:induction false} PhraseTrimmed(parts: seq<Component>)
    requires forall i :: 0 <= i < |parts| ==> KnownUnit(parts[i])
    ensures Trimmed(Phrase(parts))
    ensures Phrase(parts) == [] <==> parts == []
    decreases |parts|
  {
    if |parts| > 0 {
      var last := Render(parts[|parts| - 1]);
      assert !IsSpace(last[|last| - 1]);
      if |parts| == 1 {
        assert last[0] == IntToString(parts[0].value)[0];
      } else {
        PhraseTrimmed(parts[..|parts| - 1]);
        var init := Phrase(parts[..|parts| - 1]);
        assert (init + " " + last)[0] == init[0];
      }
    }
  }

  /** The output of `period` has no surrounding whitespace and is empty only for a zero duration. */
  lemma {:induction false} PeriodShape(days: int, seconds: int)
    requires 0 <= seconds < 86400
    ensures Trimmed(Phrase(PeriodParts(days, seconds)))
    ensures Phrase(PeriodParts(days, seconds)) == "" <==> days == 0 && seconds == 0
  {
    var parts := Optional(days, "days") + Optional(seconds / 3600, "hours") + Optional(seconds % 3600 / 60, "minutes");
    PeriodPartsSplit(days, seconds, parts);
    var all := PeriodParts(days, seconds);
    if seconds % 3600 % 60 != 0 && !(days >= 1) {
      assert all == parts + [Component(seconds % 3600 % 60, "seconds")];
      assert KnownUnit(Component(seconds % 3600 % 60, "seconds"));
      assert forall i :: 0 <= i < |all| ==> KnownUnit(all[i]) by {
        forall i | 0 <= i < |all| ensures KnownUnit(all[i]) {
          if i < |parts| { assert all[i] == parts[i]; }
        }
      }
    }
    PhraseTrimmed(all);
  }

  /** `period(delta)` for a `timedelta` of `days` days and `seconds` seconds. */
  method Period(days: int, seconds: int) returns (r: string)
    requires 0 <= seconds < 86400
    ensures r == Phrase(PeriodParts(days, seconds))
  {
    ghost var parts: seq<Component> := [];
    var pattern := "";
    pattern, parts := AppendIfNonZero(pattern, parts, days, "days");
    var h, rem := seconds / 3600, seconds % 3600;
    pattern, parts := AppendIfNonZero(pattern, parts, h, "hours");
    var m, s := rem / 60, rem % 60;
    pattern, parts := AppendIfNonZero(pattern, parts, m, "minutes");
    PeriodPartsSplit(days, seconds, parts);
    ghost var full := PeriodParts(days, seconds);
    if s != 0 && !(days >= 1) {
      LastComponent(pattern, parts, Component(s, "seconds"));
      assert full == parts + [Component(s, "seconds")];
      pattern := pattern + IntToString(s) + " seconds";
    } else {
      StripPending(pattern, parts);
      assert full == parts;
    }
    r := Strip(pattern);
  }

  /** One `if v: pattern += f"{v} unit "` step of `period`. */
  method AppendIfNonZero(pattern: string, ghost parts: seq<Component>, value: int, unit: string)
    returns (next: string, ghost nextParts: seq<Component>)
    requires pattern == Pending(parts)
    ensures nextParts == parts + Optional(value, unit)
    ensures next == Pending(nextParts)
  {
    next, nextParts := pattern, parts;
    if value != 0 {
      AppendComponent(pattern, parts, Component(value, unit));
      next := pattern + IntToString(value) + " " + unit + " ";
      nextParts := parts + [Component(value, unit)];
    }
  }

  /** The text `period` has built before the seconds: every component followed by a space. */
  function Pending(parts: seq<Component>): string
  {
    if parts == [] then "" else Phrase(parts) + " "
  }

  function Optional(value: int, unit: string): seq<Component>
  {
    if value != 0 then [Component(value, unit)] else []
  }

  /** The components are the optional days, hours and minutes, then the seconds when there are no days. */
  lemma {:induction false} PeriodPartsSplit(days: int, seconds: int, parts: seq<Component>)
    requires 0 <= seconds < 86400
    requires parts == Optional(days, "days") + Optional(seconds / 3600, "hours") + Optional(seconds % 3600 / 60, "minutes")
    ensures PeriodParts(days, seconds) ==
      parts + (if seconds % 3600 % 60 != 0 && !(days >= 1) then [Component(seconds % 3600 % 60, "seconds")] else [])
    ensures forall i :: 0 <= i < |parts| ==> KnownUnit(parts[i])
  {
  }

  /** Appending `"{v} unit "` to the pending text gives the pending text of one more component. */
  lemma {:induction false} AppendComponent(pattern: string, parts: seq<Component>, c: Component)
    requires pattern == Pending(parts)
    ensures pattern + IntToString(c.value) + " " + c.unit + " " == Pending(parts + [c])
  {
    assert (parts + [c])[..|parts|] == parts;
  }

  /** Appending the final `"{s} seconds"` yields a phrase that stripping leaves alone. */
  lemma {:induction false} LastComponent(pattern: string, parts: seq<Component>, c: Component)
    requires pattern == Pending(parts)
    requires c.unit == "seconds"
    requires forall i :: 0 <= i < |parts| ==> KnownUnit(parts[i])
    ensures Strip(pattern + IntToString(c.value) + " seconds") == Phrase(parts + [c])
  {
    var all := parts + [c];
    LastPhrase(pattern, parts, c);
    assert forall i :: 0 <= i < |all| ==> KnownUnit(all[i]);
    PhraseTrimmed(all);
    StripTrimmed(Phrase(all));
  }

  lemma {:induction false} LastPhrase(pattern: string, parts: seq<Component>, c: Component)
    requires pattern == Pending(parts)
    requires c.unit == "seconds"
    ensures pattern + IntToString(c.value) + " seconds" == Phrase(parts + [c])
  {
    var all := parts + [c];
    assert all[..|parts|] == parts && all[|parts|] == c;
    assert " " + c.unit == " seconds";
    if parts == [] {
      assert pattern + IntToString(c.value) + " seconds" == Render(c);
    } else {
      assert pattern + IntToString(c.value) + " seconds" == Phrase(parts) + " " + Render(c);
    }
  }

  /** Stripping the pending text drops its trailing space. */
  lemma {:induction false} StripPending(pattern: string, parts: seq<Component>)
    requires pattern == Pending(parts)
    requires forall i :: 0 <= i < |parts| ==> KnownUnit(parts[i])
    ensures Strip(pattern) == Phrase(parts)
  {
    PhraseTrimmed(parts);
    if parts != [] {
      StripTrailingSpace(Phrase(parts), ' ');
    }
  }
}
