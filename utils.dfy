/**
 * The byte and bit codecs and input helpers of js/utils.js (with identical
 * copies in script.js): sanitizeInput, safeParseInt, toHex, hexToBytes,
 * the validation part of base64ToBytes, bytesToBits and countBitDiff.
 */
module Utils {
  import opened Common
  import opened BitArith

  // ---------------------------------------------------------------------------
  // Characters
  // ---------------------------------------------------------------------------

  /**
   * The characters that JavaScript's String.prototype.trim removes and that the
   * regular-expression class \s matches: WhiteSpace and LineTerminator of
   * ECMAScript (tab, LF, VT, FF, CR, space, NBSP, U+1680, U+2000..U+200A,
   * U+2028, U+2029, U+202F, U+205F, U+3000, U+FEFF).
   */
  predicate IsJsWhitespace(c: char)
    ensures c == ' ' || c == '\t' || c == '\n' || c == '\r' ==> IsJsWhitespace(c)
    ensures IsJsWhitespace(c) ==>
      !('0' <= c <= '9') && !('a' <= c <= 'z') && !('A' <= c <= 'Z') && c != '+' && c != '/' && c != '='
  {
    var u := c as int;
    (0x09 <= u <= 0x0D) || u == 0x20 || u == 0xA0 || u == 0x1680 ||
    (0x2000 <= u <= 0x200A) || u == 0x2028 || u == 0x2029 || u == 0x202F ||
    u == 0x205F || u == 0x3000 || u == 0xFEFF
  }

  /** A character of the class [\x00-\x08\x0B\x0C\x0E-\x1F\x7F] (tab, LF and CR are kept). */
  predicate IsStrippedControl(c: char)
    ensures c == '\t' || c == '\n' || c == '\r' ==> !IsStrippedControl(c)
    ensures IsStrippedControl(c) ==> c as int < 0x20 || c as int == 0x7F
  {
    var u := c as int;
    u <= 0x08 || u == 0x0B || u == 0x0C || (0x0E <= u <= 0x1F) || u == 0x7F
  }

  /** A character of the class [0-9a-fA-F]. */
  predicate IsHexChar(c: char)
    ensures IsHexChar(c) ==> !IsJsWhitespace(c) && !IsStrippedControl(c)
    ensures IsLowerHexChar(c) ==> IsHexChar(c)
  {
    ('0' <= c <= '9') || ('a' <= c <= 'f') || ('A' <= c <= 'F')
  }

  predicate IsLowerHexChar(c: char)
  {
    ('0' <= c <= '9') || ('a' <= c <= 'f')
  }

  // ---------------------------------------------------------------------------
  // sanitizeInput
  // ---------------------------------------------------------------------------

  /** The argument of sanitizeInput: a JavaScript string or any other value. */
  datatype JsValue = JsString(s: string) | NotAString

  /** s.replace(/[\x00-\x08\x0B\x0C\x0E-\x1F\x7F]/g, '') */
  function StripControls(s: string): (r: string)
    ensures |r| <= |s|
    ensures forall i :: 0 <= i < |r| ==> !IsStrippedControl(r[i])
  {
    if s == [] then []
    else (if IsStrippedControl(s[0]) then [] else [s[0]]) + StripControls(s[1..])
  }

  function SanitizeInput(v: JsValue): (r: string)
    ensures v.NotAString? ==> r == ""
    ensures forall i :: 0 <= i < |r| ==> !IsStrippedControl(r[i])
  {
    match v
    case NotAString => ""
    case JsString(s) => StripControls(s)
  }

  /** The global replace works piecewise: sanitizing a concatenation sanitizes each part. */
  lemma {:induction false} StripControlsAppend(a: string, b: string)
    ensures StripControls(a + b) == StripControls(a) + StripControls(b)
    decreases |a|
  {
    if a == [] {
      assert a + b == b;
    } else {
      var head: string := if IsStrippedControl(a[0]) then [] else [a[0]];
      assert (a + b)[0] == a[0] && (a + b)[1..] == a[1..] + b;
      assert StripControls(a + b) == head + StripControls(a[1..] + b);
      StripControlsAppend(a[1..], b);
      assert StripControls(a) == head + StripControls(a[1..]);
      assert head + (StripControls(a[1..]) + StripControls(b)) == (head + StripControls(a[1..])) + StripControls(b);
    }
  }

  /** A string without the stripped control characters is returned unchanged. */
  lemma {:induction false} StripControlsKeepsClean(s: string)
    requires forall i :: 0 <= i < |s| ==> !IsStrippedControl(s[i])
    ensures StripControls(s) == s
    decreases |s|
  {
    if s != [] {
      StripControlsKeepsClean(s[1..]);
    }
  }

  /**
   * Exactly the listed control characters are removed: the result holds every
   * other character as often as the input does, and none of the listed ones.
   */
  lemma {:induction false} StripControlsCounts(s: string, c: char)
    ensures multiset(StripControls(s))[c] == if IsStrippedControl(c) then 0 else multiset(s)[c]
    decreases |s|
  {
    if s != [] {
      StripControlsCounts(s[1..], c);
      assert s == [s[0]] + s[1..];
      assert multiset(s) == multiset([s[0]]) + multiset(s[1..]);
    }
  }

  lemma SanitizeInputIdempotent(v: JsValue)
    ensures SanitizeInput(JsString(SanitizeInput(v))) == SanitizeInput(v)
  {
    StripControlsKeepsClean(SanitizeInput(v));
  }

  // ---------------------------------------------------------------------------
  // trim and the whitespace handling of hexToBytes
  // ---------------------------------------------------------------------------

  /** The suffix of s after its leading whitespace. */
  function TrimStart(s: string): (r: string)
    ensures |r| <= |s|
    ensures r == [] || !IsJsWhitespace(r[0])
    ensures r != [] ==> r[|r| - 1] == s[|s| - 1]
  {
    if s != [] && IsJsWhitespace(s[0]) then TrimStart(s[1..]) else s
  }

  /** The prefix of s before its trailing whitespace. */
  function TrimEnd(s: string): (r: string)
    ensures |r| <= |s|
    ensures r == [] || !IsJsWhitespace(r[|r| - 1])
  {
    if s != [] && IsJsWhitespace(s[|s| - 1]) then TrimEnd(s[..|s| - 1]) else s
  }

  /** String.prototype.trim: the result neither starts nor ends with whitespace, and is s itself when s has none at either end. */
  function Trim(s: string): (r: string)
    ensures |r| <= |s|
    ensures r == [] || (!IsJsWhitespace(r[0]) && !IsJsWhitespace(r[|r| - 1]))
    ensures (s == [] || (!IsJsWhitespace(s[0]) && !IsJsWhitespace(s[|s| - 1]))) ==> r == s
  {
    TrimStart(TrimEnd(s))
  }

  /** s.replace(/\s+/g, "") */
  function RemoveWhitespace(s: string): (r: string)
    ensures |r| <= |s|
    ensures forall i :: 0 <= i < |r| ==> !IsJsWhitespace(r[i])
  {
    if s == [] then []
    else (if IsJsWhitespace(s[0]) then [] else [s[0]]) + RemoveWhitespace(s[1..])
  }

  predicate StartsWithHexPrefix(s: string)
  {
    |s| >= 2 && s[0] == '0' && s[1] == 'x'
  }

  /** s.replace(/^0x/, ""): one lower-case prefix at most. */
  function StripHexPrefix(s: string): (r: string)
    ensures r == s || s == "0x" + r
    ensures |r| < |s| <==> StartsWithHexPrefix(s)
  {
    if StartsWithHexPrefix(s) then s[2..] else s
  }

  /** The `clean` string of hexToBytes. */
  function CleanHex(hex: string): (clean: string)
    ensures |clean| <= |hex|
  {
    RemoveWhitespace(StripHexPrefix(Trim(hex)))
  }

  lemma {:induction false} RemoveWhitespaceAppend(a: string, b: string)
    ensures RemoveWhitespace(a + b) == RemoveWhitespace(a) + RemoveWhitespace(b)
    decreases |a|
  {
    if a == [] {
      assert a + b == b;
    } else {
      var head: string := if IsJsWhitespace(a[0]) then [] else [a[0]];
      assert (a + b)[0] == a[0] && (a + b)[1..] == a[1..] + b;
      assert RemoveWhitespace(a + b) == head + RemoveWhitespace(a[1..] + b);
      RemoveWhitespaceAppend(a[1..], b);
      assert RemoveWhitespace(a) == head + RemoveWhitespace(a[1..]);
      assert head + (RemoveWhitespace(a[1..]) + RemoveWhitespace(b)) == (head + RemoveWhitespace(a[1..])) + RemoveWhitespace(b);
    }
  }

  lemma {:induction false} RemoveWhitespaceTrimStart(s: string)
    ensures RemoveWhitespace(TrimStart(s)) == RemoveWhitespace(s)
    decreases |s|
  {
    if s != [] && IsJsWhitespace(s[0]) {
      RemoveWhitespaceTrimStart(s[1..]);
    }
  }

  lemma {:induction false} RemoveWhitespaceTrimEnd(s: string)
    ensures RemoveWhitespace(TrimEnd(s)) == RemoveWhitespace(s)
    decreases |s|
  {
    if s != [] && IsJsWhitespace(s[|s| - 1]) {
      var init := s[..|s| - 1];
      RemoveWhitespaceTrimEnd(init);
      assert s == init + [s[|s| - 1]];
      RemoveWhitespaceAppend(init, [s[|s| - 1]]);
    }
  }

  lemma {:induction false} RemoveWhitespaceKeepsClean(s: string)
    requires forall i :: 0 <= i < |s| ==> !IsJsWhitespace(s[i])
    ensures RemoveWhitespace(s) == s
    decreases |s|
  {
    if s != [] {
      RemoveWhitespaceKeepsClean(s[1..]);
    }
  }

  // ---------------------------------------------------------------------------
  // toHex
  // ---------------------------------------------------------------------------

  function HexDigit(d: nat): (c: char)
    requires d < 16
    ensures IsLowerHexChar(c)
  {
    "0123456789abcdef"[d]
  }

  /** b.toString(16).padStart(2, "0") */
  function ByteHex(b: byte): (r: string)
    ensures |r| == 2
  {
    [HexDigit(b / 16), HexDigit(b % 16)]
  }

  /** toHex: the bytes mapped to two-digit lower-case hex and joined. */
  function ToHex(b: seq<byte>): (r: string)
    ensures |r| == 2 * |b|
    ensures forall i :: 0 <= i < |r| ==> IsLowerHexChar(r[i])
  {
    if b == [] then "" else ByteHex(b[0]) + ToHex(b[1..])
  }

  /** Characters 2k and 2k+1 of toHex(b) are the high and low nibble of b[k]. */
  lemma {:induction false} ToHexAt(b: seq<byte>, k: nat)
    requires k < |b|
    ensures ToHex(b)[2 * k] == HexDigit(b[k] / 16)
    ensures ToHex(b)[2 * k + 1] == HexDigit(b[k] % 16)
    decreases k
  {
    if k > 0 {
      ToHexAt(b[1..], k - 1);
      assert ToHex(b) == ByteHex(b[0]) + ToHex(b[1..]);
    }
  }

  // ---------------------------------------------------------------------------
  // hexToBytes
  // ---------------------------------------------------------------------------

  datatype HexError = InvalidHex | OddLength(length: nat) | TooLarge

  /** Bound of hexToBytes on the cleaned length ("10MB"). */
  const MaxHexLength: nat := 20000000

  /** parseInt(c, 16) for one hexadecimal digit. */
  function HexValue(c: char): (v: nat)
    requires IsHexChar(c)
    ensures v < 16
  {
    if '0' <= c <= '9' then c as int - '0' as int
    else if 'a' <= c <= 'f' then c as int - 'a' as int + 10
    else c as int - 'A' as int + 10
  }

  predicate AllHexChars(s: string)
  {
    forall i :: 0 <= i < |s| ==> IsHexChar(s[i])
  }

  /** parseInt(clean.slice(2 * i, 2 * i + 2), 16) */
  function PairByte(clean: string, i: nat): (v: byte)
    requires AllHexChars(clean) && 2 * i + 1 < |clean|
  {
    HexValue(clean[2 * i]) * 16 + HexValue(clean[2 * i + 1])
  }

  /** The bytes of an even-length run of hex digits, two digits per byte, high nibble first. */
  function HexPairs(clean: string): (r: seq<byte>)
    requires AllHexChars(clean) && |clean| % 2 == 0
    ensures |r| * 2 == |clean|
    ensures forall i :: 0 <= i < |r| ==> r[i] == PairByte(clean, i)
  {
    seq(|clean| / 2, i requires 0 <= i < |clean| / 2 => PairByte(clean, i))
  }

  /** What hexToBytes returns or throws for a given argument. */
  function HexDecode(hex: string): (r: Result<seq<byte>, HexError>)
    ensures r == Err(InvalidHex) <==> !AllHexChars(CleanHex(hex))
    ensures r.Err? && r.error.OddLength? <==> AllHexChars(CleanHex(hex)) && |CleanHex(hex)| % 2 != 0
    ensures r.Ok? <==> AllHexChars(CleanHex(hex)) && |CleanHex(hex)| % 2 == 0 && |CleanHex(hex)| <= MaxHexLength
    ensures r.Ok? ==> |r.value| * 2 == |CleanHex(hex)| && forall i :: 0 <= i < |r.value| ==> r.value[i] == PairByte(CleanHex(hex), i)
  {
    var clean := CleanHex(hex);
    if !AllHexChars(clean) then Err(InvalidHex)
    else if |clean| % 2 != 0 then Err(OddLength(|clean|))
    else if |clean| > MaxHexLength then Err(TooLarge)
    else Ok(HexPairs(clean))
  }

  /** hexToBytes: validates the cleaned string and fills a fresh Uint8Array pair by pair. */
  method HexToBytes(hex: string) returns (r: Result<seq<byte>, HexError>)
    ensures r == HexDecode(hex)
    ensures r.Ok? ==> |r.value| * 2 == |CleanHex(hex)|
  {
    var clean := CleanHex(hex);
    if !AllHexChars(clean) {
      return Err(InvalidHex);
    }
    if |clean| % 2 != 0 {
      return Err(OddLength(|clean|));
    }
    if |clean| > MaxHexLength {
      return Err(TooLarge);
    }
    var out := new byte[|clean| / 2];
    var i := 0;
    while i < out.Length
      invariant 0 <= i <= out.Length
      invariant forall k :: 0 <= k < i ==> out[k] == PairByte(clean, k)
    {
      out[i] := PairByte(clean, i);
      i := i + 1;
    }
    assert out[..] == HexPairs(clean);
    r := Ok(out[..]);
  }

  /** Round trip: hexToBytes(toHex(b)) gives back b (within the size limit). */
  lemma HexRoundTrip(b: seq<byte>)
    requires 2 * |b| <= MaxHexLength
    ensures HexDecode(ToHex(b)) == Ok(b)
  {
    CleanOfHexString(ToHex(b));
    PairsOfHex(b);
  }

  lemma PairsOfHex(b: seq<byte>)
    ensures AllHexChars(ToHex(b)) && |ToHex(b)| % 2 == 0
    ensures HexPairs(ToHex(b)) == b
  {
    var h := ToHex(b);
    assert AllHexChars(h);
    var pairs := HexPairs(h);
    forall k | 0 <= k < |b|
      ensures pairs[k] == b[k]
    {
      ToHexAt(b, k);
      HexDigitValue(b[k] / 16);
      HexDigitValue(b[k] % 16);
      assert pairs[k] == (b[k] / 16) * 16 + b[k] % 16;
    }
    assert pairs == b;
  }

  lemma HexDigitValue(d: nat)
    requires d < 16
    ensures IsHexChar(HexDigit(d)) && HexValue(HexDigit(d)) == d
  {
  }

  /** A string of lower-case hex digits is its own cleaned form. */
  lemma CleanOfHexString(h: string)
    requires forall i :: 0 <= i < |h| ==> IsLowerHexChar(h[i])
    ensures CleanHex(h) == h
  {
    if h != [] {
      assert IsLowerHexChar(h[|h| - 1]) && IsLowerHexChar(h[0]);
    }
    assert TrimEnd(h) == h;
    assert TrimStart(h) == h;
    if |h| >= 2 {
      assert IsLowerHexChar(h[1]);
    }
    assert !StartsWithHexPrefix(h);
    RemoveWhitespaceKeepsClean(h);
  }

  /** toHex is injective, since hexToBytes inverts it. */
  lemma ToHexInjective(a: seq<byte>, b: seq<byte>)
    ensures ToHex(a) == ToHex(b) <==> a == b
  {
    if ToHex(a) == ToHex(b) {
      assert |a| == |b|;
      forall k | 0 <= k < |a|
        ensures a[k] == b[k]
      {
        ToHexAt(a, k);
        ToHexAt(b, k);
        assert ToHex(a)[2 * k] == ToHex(b)[2 * k];
        assert ToHex(a)[2 * k + 1] == ToHex(b)[2 * k + 1];
        HexDigitInjective(a[k] / 16, b[k] / 16);
        HexDigitInjective(a[k] % 16, b[k] % 16);
        NibblesDetermineByte(a[k], b[k]);
      }
    }
  }

  lemma HexDigitInjective(d: nat, e: nat)
    requires d < 16 && e < 16 && HexDigit(d) == HexDigit(e)
    ensures d == e
  {
    HexDigitValue(d);
    HexDigitValue(e);
  }

  lemma NibblesDetermineByte(x: byte, y: byte)
    requires x / 16 == y / 16 && x % 16 == y % 16
    ensures x == y
  {
  }

  /**
   * One leading "0x" is ignored: hexToBytes("0x" + h) == hexToBytes(h), provided
   * the trimmed h does not itself start with "0x" (only one prefix is stripped).
   */
  lemma HexPrefixIgnored(h: string)
    requires !StartsWithHexPrefix(Trim(h))
    ensures HexDecode("0x" + h) == HexDecode(h)
  {
    CleanOfPrefixed(h);
    CleanIsRemoveWhitespace(h);
  }

  /** Behind a leading "0x", cleaning removes the prefix and all whitespace. */
  lemma CleanOfPrefixed(h: string)
    ensures CleanHex("0x" + h) == RemoveWhitespace(h)
  {
    var e := TrimEnd(h);
    TrimEndBehindPrefix(h);
    assert TrimStart("0x" + e) == "0x" + e;
    assert Trim("0x" + h) == "0x" + e;
    assert StripHexPrefix("0x" + e) == e;
    RemoveWhitespaceTrimEnd(h);
  }

  lemma {:induction false} TrimEndBehindPrefix(h: string)
    ensures TrimEnd("0x" + h) == "0x" + TrimEnd(h)
    decreases |h|
  {
    var p := "0x" + h;
    if h != [] && IsJsWhitespace(h[|h| - 1]) {
      assert p[..|p| - 1] == "0x" + h[..|h| - 1];
      TrimEndBehindPrefix(h[..|h| - 1]);
    }
  }

  /** Only one prefix is stripped: "0x0x12" is rejected, because "0x12" is left after the first one. */
  lemma DoublePrefixRejected()
    ensures HexDecode("0x0x12") == Err(InvalidHex)
  {
    var d, h := "0x0x12", "0x12";
    assert Trim(d) == d && StripHexPrefix(d) == h;
    RemoveWhitespaceKeepsClean(h);
    assert CleanHex(d) == h && !IsHexChar(h[1]);
  }

  /** With a single prefix the same digits decode: "0x12" gives [0x12]. */
  lemma SinglePrefixDecodes()
    ensures HexDecode("0x12") == Ok([0x12])
  {
    var h := "0x12";
    assert Trim(h) == h && StripHexPrefix(h) == "12";
    RemoveWhitespaceKeepsClean("12");
    assert CleanHex(h) == "12";
    assert HexPairs("12") == [0x12] by {
      assert PairByte("12", 0) == 0x12;
    }
  }

  /**
   * Whitespace is ignored: two arguments that agree once all whitespace is
   * removed decode alike, provided neither trimmed argument starts with "0x".
   */
  lemma HexWhitespaceIgnored(s: string, t: string)
    requires !StartsWithHexPrefix(Trim(s)) && !StartsWithHexPrefix(Trim(t))
    requires RemoveWhitespace(s) == RemoveWhitespace(t)
    ensures HexDecode(s) == HexDecode(t)
  {
    CleanIsRemoveWhitespace(s);
    CleanIsRemoveWhitespace(t);
  }

  lemma CleanIsRemoveWhitespace(s: string)
    requires !StartsWithHexPrefix(Trim(s))
    ensures CleanHex(s) == RemoveWhitespace(s)
  {
    RemoveWhitespaceTrimEnd(s);
    RemoveWhitespaceTrimStart(TrimEnd(s));
  }

  // ---------------------------------------------------------------------------
  // safeParseInt
  // ---------------------------------------------------------------------------

  predicate IsDigit(c: char)
  {
    '0' <= c <= '9'
  }

  /** Length of the longest prefix of s made of decimal digits. */
  function DigitRun(s: string): (k: nat)
    ensures k <= |s|
    ensures forall i :: 0 <= i < k ==> IsDigit(s[i])
    ensures k < |s| ==> !IsDigit(s[k])
  {
    if s == [] || !IsDigit(s[0]) then 0 else 1 + DigitRun(s[1..])
  }

  /** The value of a string of decimal digits, most significant first. */
  function DigitsValue(d: string): (v: nat)
    requires forall i :: 0 <= i < |d| ==> IsDigit(d[i])
  {
    if d == [] then 0
    else
      assert IsDigit(d[|d| - 1]);
      10 * DigitsValue(d[..|d| - 1]) + (d[|d| - 1] as int - '0' as int)
  }

  /**
   * parseInt(s, 10): skip leading whitespace, read an optional sign and the
   * longest run of decimal digits after it; no digit at all gives NaN (None).
   */
  function ParseInt(s: string): (r: Option<int>)
    ensures TrimStart(s) == [] ==> r == None
    ensures TrimStart(s) != [] && IsDigit(TrimStart(s)[0]) ==> r.Some? && r.value >= 0
    ensures r.Some? ==> var t := TrimStart(s);
      t != [] && (IsDigit(t[0]) || ((t[0] == '-' || t[0] == '+') && |t| > 1 && IsDigit(t[1])))
    ensures r.Some? && r.value < 0 ==> TrimStart(s)[0] == '-'
  {
    var t := TrimStart(s);
    var neg := t != [] && t[0] == '-';
    var body := if t != [] && (t[0] == '-' || t[0] == '+') then t[1..] else t;
    var k := DigitRun(body);
    if k == 0 then None
    else
      var v: int := DigitsValue(body[..k]);
      Some(if neg then -v else v)
  }

  /** safeParseInt: the parsed value clamped into [min, max]; defaultVal when parsing fails. */
  function SafeParseInt(value: string, min: int, max: int, defaultVal: int): (r: int)
    ensures ParseInt(value).None? ==> r == defaultVal
    ensures ParseInt(value).Some? && min <= max ==> min <= r <= max
    ensures ParseInt(value).Some? && min <= ParseInt(value).value <= max ==> r == ParseInt(value).value
    ensures ParseInt(value).Some? && ParseInt(value).value < min ==> r == min
    ensures ParseInt(value).Some? && min <= ParseInt(value).value && ParseInt(value).value > max ==> r == max
  {
    match ParseInt(value)
    case None => defaultVal
    case Some(num) => if num < min then min else if num > max then max else num
  }

  lemma {:induction false} DigitsValueOfDecimal(n: nat)
    ensures DigitsValue(DecimalString(n)) == n
    decreases n
  {
    if n >= 10 {
      DigitsValueOfDecimal(n / 10);
      var d := DecimalString(n);
      assert d[..|d| - 1] == DecimalString(n / 10);
      DigitCharValue(n % 10);
      assert DigitsValue(d) == 10 * (n / 10) + n % 10;
    } else {
      DigitCharValue(n);
    }
  }

  lemma DigitCharValue(k: nat)
    requires k < 10
    ensures DigitChar(k) as int - '0' as int == k
  {
  }

  lemma {:induction false} DigitRunAll(d: string)
    requires forall i :: 0 <= i < |d| ==> IsDigit(d[i])
    ensures DigitRun(d) == |d|
    decreases |d|
  {
    if d != [] {
      DigitRunAll(d[1..]);
    }
  }

  /** parseInt reads back the decimal rendering of every natural number. */
  lemma ParseIntOfDecimal(n: nat)
    ensures ParseInt(DecimalString(n)) == Some(n)
  {
    var d := DecimalString(n);
    assert !IsJsWhitespace(d[0]);
    assert TrimStart(d) == d;
    DigitRunAll(d);
    assert d[..|d|] == d;
    DigitsValueOfDecimal(n);
  }

  /** The digits of a decimal rendering inside [min, max] come back unchanged. */
  lemma SafeParseIntOfDecimal(n: nat, min: int, max: int, defaultVal: int)
    requires min <= n <= max
    ensures SafeParseInt(DecimalString(n), min, max, defaultVal) == n
  {
    ParseIntOfDecimal(n);
  }

  /** Leading whitespace is skipped and trailing junk after the digits is ignored ("  12px" is 12). */
  lemma ParseIntExample()
    ensures ParseInt(" 12px") == Some(12)
  {
    assert TrimStart(" 12px") == "12px" by {
      assert " 12px"[1..] == "12px";
    }
    assert DigitRun("12px") == 2 by {
      assert "12px"[1..] == "2px";
      assert "2px"[1..] == "px";
    }
    assert "12px"[..2] == "12";
    assert DigitsValue("12") == 12 by {
      assert "12"[..1] == "1";
      assert "1"[..0] == "";
    }
  }

  /** A leading minus sign negates the value. */
  lemma ParseIntNegative()
    ensures ParseInt("-7") == Some(-7)
  {
    assert DigitRun("7") == 1 by {
      assert "7"[1..] == "";
    }
    assert "-7"[1..] == "7" && "7"[..1] == "7";
    assert DigitsValue("7") == 7 by {
      assert "7"[..0] == "";
    }
  }

  /** No digit at all is NaN. */
  lemma ParseIntNaN()
    ensures ParseInt("px") == None
    ensures ParseInt("") == None
  {
  }

  // ---------------------------------------------------------------------------
  // base64ToBytes (validation only; the decoding is done by atob)
  // ---------------------------------------------------------------------------

  datatype Base64Error = InvalidBase64 | Base64TooLarge | AtobFailed

  const MaxBase64Length: nat := 13333334

  predicate IsBase64Char(c: char)
  {
    ('A' <= c <= 'Z') || ('a' <= c <= 'z') || ('0' <= c <= '9') || c == '+' || c == '/'
  }

  /** Length of the longest prefix of s made of base64 alphabet characters. */
  function Base64Body(s: string): (k: nat)
    ensures k <= |s|
    ensures forall i :: 0 <= i < k ==> IsBase64Char(s[i])
    ensures k < |s| ==> !IsBase64Char(s[k])
  {
    if s == [] || !IsBase64Char(s[0]) then 0 else 1 + Base64Body(s[1..])
  }

  /** s is k alphabet characters followed by at most two '=' characters. */
  predicate Base64Shape(s: string, k: nat)
  {
    k <= |s| && |s| - k <= 2 &&
    (forall i :: 0 <= i < k ==> IsBase64Char(s[i])) &&
    (forall i :: k <= i < |s| ==> s[i] == '=')
  }

  /** /^[A-Za-z0-9+/]*={0,2}$/ */
  predicate MatchesBase64Pattern(s: string)
    ensures MatchesBase64Pattern(s) ==> Base64Shape(s, Base64Body(s))
  {
    var k := Base64Body(s);
    |s| - k <= 2 && forall i :: k <= i < |s| ==> s[i] == '='
  }

  /**
   * The checks base64ToBytes makes before calling atob: the trimmed string must
   * match the base64 pattern and be at most 13333334 characters; on success the
   * trimmed string is what atob receives.
   */
  function Base64Check(b64: string): (r: Result<string, Base64Error>)
    ensures r.Ok? ==> r.value == Trim(b64) && |r.value| <= MaxBase64Length
    ensures r.Ok? ==> Base64Shape(r.value, Base64Body(r.value))
    ensures r == Err(InvalidBase64) <==> !MatchesBase64Pattern(Trim(b64))
  {
    var clean := Trim(b64);
    if !MatchesBase64Pattern(clean) then Err(InvalidBase64)
    else if |clean| > MaxBase64Length then Err(Base64TooLarge)
    else Ok(clean)
  }

  /**
   * base64ToBytes: the checks of Base64Check, then atob on the trimmed string.
   * atob is the browser's decoder, a parameter here (None where it throws); the
   * copy loop stores the char code of each character of its result, a byte.
   */
  function Base64ToBytes(b64: string, atob: string -> Option<seq<byte>>): (r: Result<seq<byte>, Base64Error>)
    ensures r.Ok? <==> Base64Check(b64).Ok? && atob(Trim(b64)).Some?
    ensures r.Ok? ==> atob(Trim(b64)) == Some(r.value)
    ensures r == Err(InvalidBase64) <==> !MatchesBase64Pattern(Trim(b64))
    ensures r == Err(Base64TooLarge) <==> MatchesBase64Pattern(Trim(b64)) && |Trim(b64)| > MaxBase64Length
  {
    match Base64Check(b64)
    case Err(e) => Err(e)
    case Ok(clean) =>
      match atob(clean)
      case None => Err(AtobFailed)
      case Some(bin) => Ok(bin)
  }

  /** Any string of the shape alphabet* ={0,2} passes the pattern. */
  lemma Base64PatternComplete(s: string, k: nat)
    requires Base64Shape(s, k)
    ensures MatchesBase64Pattern(s)
  {
    Base64BodyOfShape(s, k);
  }

  /** In a string of that shape the alphabet prefix is exactly the first k characters. */
  lemma {:induction false} Base64BodyOfShape(s: string, k: nat)
    requires Base64Shape(s, k)
    ensures Base64Body(s) == k
    decreases k
  {
    if k == 0 {
      if s != [] {
        assert s[0] == '=';
      }
    } else {
      assert IsBase64Char(s[0]);
      var t := s[1..];
      forall i | 0 <= i < k - 1
        ensures IsBase64Char(t[i])
      {
        assert t[i] == s[i + 1];
      }
      forall i | k - 1 <= i < |t|
        ensures t[i] == '='
      {
        assert t[i] == s[i + 1];
      }
      Base64BodyOfShape(t, k - 1);
    }
  }

  // ---------------------------------------------------------------------------
  // bytesToBits
  // ---------------------------------------------------------------------------

  /** Bits of one byte, most significant first: (byte >> 7) & 1, ..., byte & 1. */
  function ByteBits(b: byte): (r: seq<bit>)
    ensures |r| == 8
  {
    seq(8, j requires 0 <= j < 8 => BitAt(b, 7 - j))
  }

  /** The bits of a byte sequence, MSB-first per byte. */
  function BitsOf(bytes: seq<byte>): (r: seq<bit>)
    ensures |r| == 8 * |bytes|
    ensures forall i :: 0 <= i < |r| ==> r[i] == BitAt(bytes[i / 8], 7 - i % 8)
  {
    if bytes == [] then []
    else
      var init := bytes[..|bytes| - 1];
      var r := BitsOf(init) + ByteBits(bytes[|bytes| - 1]);
      assert forall i :: 0 <= i < 8 * |init| ==> i / 8 < |init| && bytes[i / 8] == init[i / 8];
      assert forall i :: 8 * |init| <= i < |r| ==> i / 8 == |init| && i % 8 == i - 8 * |init|;
      r
  }

  lemma BitsOfAppend(bytes: seq<byte>, b: byte)
    ensures BitsOf(bytes + [b]) == BitsOf(bytes) + ByteBits(b)
  {
    assert (bytes + [b])[..|bytes|] == bytes;
  }

  /** bytesToBits: pushes the eight bits of every byte, from bit 7 down to bit 0. */
  method BytesToBits(bytes: seq<byte>) returns (bits: seq<bit>)
    ensures bits == BitsOf(bytes)
  {
    bits := [];
    var k := 0;
    while k < |bytes|
      invariant 0 <= k <= |bytes|
      invariant bits == BitsOf(bytes[..k])
    {
      var byte := bytes[k];
      var i := 7;
      while i >= 0
        invariant -1 <= i <= 7
        invariant bits == BitsOf(bytes[..k]) + ByteBits(byte)[..7 - i]
      {
        bits := bits + [BitAt(byte, i)];
        i := i - 1;
      }
      assert ByteBits(byte)[..8] == ByteBits(byte);
      assert bytes[..k + 1] == bytes[..k] + [byte];
      BitsOfAppend(bytes[..k], byte);
      k := k + 1;
    }
    assert bytes[..k] == bytes;
  }

  // ---------------------------------------------------------------------------
  // countBitDiff
  // ---------------------------------------------------------------------------

  /**
   * Sum of popcount(a[i] ^ b[i]) over all positions i when |a| == |b|
   * (the elements are paired from the end, so unequal lengths are only ever
   * given to it through equally long prefixes).
   */
  function Hamming(a: seq<byte>, b: seq<byte>): (d: nat)
    ensures d <= 8 * Min(|a|, |b|)
    decreases |a|
  {
    if a == [] || b == [] then 0
    else
      var x := Xor(a[|a| - 1], b[|b| - 1]);
      assert Pow2(8) == 256;
      XorBelowPow2(a[|a| - 1], b[|b| - 1], 8);
      PopcountBelowPow2(x, 8);
      Hamming(a[..|a| - 1], b[..|b| - 1]) + Popcount(x)
  }

  /** The value countBitDiff(a, b) returns: -1 on a length mismatch, else the Hamming distance. */
  function BitDiff(a: seq<byte>, b: seq<byte>): (r: int)
    ensures r == -1 <==> |a| != |b|
    ensures |a| == |b| ==> 0 <= r <= 8 * |a|
  {
    if |a| != |b| then -1 else Hamming(a, b)
  }

  /** countBitDiff: counts the set bits of every a[i] ^ b[i] with the `xor &= xor - 1` loop. */
  method CountBitDiff(a: seq<byte>, b: seq<byte>) returns (diff: int)
    ensures diff == BitDiff(a, b)
  {
    if |a| != |b| {
      return -1;
    }
    diff := 0;
    var i := 0;
    while i < |a|
      invariant 0 <= i <= |a|
      invariant diff == Hamming(a[..i], b[..i])
    {
      var xor: nat := Xor(a[i], b[i]);
      ghost var start := diff;
      while xor != 0
        invariant diff + Popcount(xor) == start + Popcount(Xor(a[i], b[i]))
        decreases xor
      {
        ClearLowestSetBit(xor);
        diff := diff + 1;
        xor := And(xor, xor - 1);
      }
      assert a[..i + 1][..i] == a[..i] && b[..i + 1][..i] == b[..i];
      i := i + 1;
    }
    assert a[..i] == a && b[..i] == b;
  }

  lemma {:induction false} HammingSymmetric(a: seq<byte>, b: seq<byte>)
    ensures Hamming(a, b) == Hamming(b, a)
    decreases |a|
  {
    if a != [] && b != [] {
      HammingSymmetric(a[..|a| - 1], b[..|b| - 1]);
      XorCommutes(a[|a| - 1], b[|b| - 1]);
    }
  }

  lemma {:induction false} HammingZeroIff(a: seq<byte>, b: seq<byte>)
    requires |a| == |b|
    ensures Hamming(a, b) == 0 <==> a == b
    decreases |a|
  {
    if a != [] {
      var a', b' := a[..|a| - 1], b[..|b| - 1];
      HammingZeroIff(a', b');
      XorZeroIff(a[|a| - 1], b[|b| - 1]);
      PopcountZeroIff(Xor(a[|a| - 1], b[|b| - 1]));
      assert a == a' + [a[|a| - 1]] && b == b' + [b[|b| - 1]];
      if a == b {
        assert a' == b';
      }
    }
  }

  /** countBitDiff is -1 exactly on a length mismatch; otherwise it is symmetric, zero iff equal, at most 8|a|. */
  lemma BitDiffProperties(a: seq<byte>, b: seq<byte>)
    ensures BitDiff(a, b) == -1 <==> |a| != |b|
    ensures BitDiff(a, b) == BitDiff(b, a)
    ensures |a| == |b| ==> (BitDiff(a, b) == 0 <==> a == b)
    ensures |a| == |b| ==> 0 <= BitDiff(a, b) <= 8 * |a|
  {
    HammingSymmetric(a, b);
    if |a| == |b| {
      HammingZeroIff(a, b);
    }
  }
}
