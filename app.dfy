/**
 * js/app.js: decoding of the collision inputs, the single-bit flip of the
 * avalanche demo, the byte-by-byte difference listing of showInputDifferences,
 * the collision verdict and the three run handlers (avalanche, visualisation,
 * collision) down to the state they leave behind.  Text rendering is kept
 * where it is plain string building; DOM writes, alerts and percentages are
 * left out.
 */
module App {
  import opened Common
  import opened BitArith
  import Utils
  import Statistics
  import HashEngines
  import Interactions

  // ---------------------------------------------------------------------------
  // decodeInput
  // ---------------------------------------------------------------------------

  datatype DecodeError = Base64Failed(b64: Utils.Base64Error) | HexFailed(hex: Utils.HexError) | UnknownEncoding

  /**
   * decodeInput(text, enc): base64, hex or UTF-8 by name, an error for any other
   * name.  atob and TextEncoder are the browser's, parameters here.
   */
  function DecodeInput(text: string, enc: string, atob: string -> Option<seq<byte>>,
                       utf8: string -> seq<byte>): (r: Result<seq<byte>, DecodeError>)
    ensures enc == "base64" ==>
      (r.Ok? <==> Utils.Base64ToBytes(text, atob).Ok?) &&
      (r.Ok? ==> r.value == Utils.Base64ToBytes(text, atob).value)
    ensures enc == "hex" ==>
      (r.Ok? <==> Utils.HexDecode(text).Ok?) &&
      (r.Ok? ==> r.value == Utils.HexDecode(text).value)
    ensures enc == "utf8" ==> r == Ok(utf8(text))
    ensures enc != "base64" && enc != "hex" && enc != "utf8" ==> r == Err(UnknownEncoding)
  {
    if enc == "base64" then
      match Utils.Base64ToBytes(text, atob)
      case Ok(b) => Ok(b)
      case Err(e) => Err(Base64Failed(e))
    else if enc == "hex" then
      match Utils.HexDecode(text)
      case Ok(b) => Ok(b)
      case Err(e) => Err(HexFailed(e))
    else if enc == "utf8" then Ok(utf8(text))
    else Err(UnknownEncoding)
  }

  /** Hex text produced by toHex decodes back to the same bytes, whatever the decoders are. */
  lemma DecodeHexRoundTrip(b: seq<byte>, atob: string -> Option<seq<byte>>, utf8: string -> seq<byte>)
    requires 2 * |b| <= Utils.MaxHexLength
    ensures DecodeInput(Utils.ToHex(b), "hex", atob, utf8) == Ok(b)
  {
    Utils.HexRoundTrip(b);
  }

  // ---------------------------------------------------------------------------
  // The avalanche flip
  // ---------------------------------------------------------------------------

  /** The byte sequence with bit k of byte i inverted: `b[i] ^ (1 << k)`. */
  function Flipped(a: seq<byte>, i: nat, k: nat): (b: seq<byte>)
    requires i < |a| && k < 8
    ensures |b| == |a|
  {
    FlipStaysByte(a[i], k);
    a[i := Xor(a[i], Pow2(k))]
  }

  lemma FlipStaysByte(x: byte, k: nat)
    requires k < 8
    ensures Xor(x, Pow2(k)) < 256
  {
    Pow2Monotone(k + 1, 8);
    assert Pow2(8) == 256;
    XorBelowPow2(x, Pow2(k), 8);
  }

  /** The flipped input differs from the original in exactly one bit. */
  lemma FlipIsOneBit(a: seq<byte>, i: nat, k: nat)
    requires i < |a| && k < 8
    ensures Utils.BitDiff(a, Flipped(a, i, k)) == 1
  {
    FlipStaysByte(a[i], k);
    HammingPointUpdate(a, i, Xor(a[i], Pow2(k)));
    XorCancels(a[i], Pow2(k));
    PopcountPow2(k);
  }

  /** The only bit of bytesToBits that changes is bit 8i + 7 - k, counted MSB first. */
  lemma FlipChangesBit(a: seq<byte>, i: nat, k: nat, j: nat)
    requires i < |a| && k < 8 && j < 8 * |a|
    ensures Utils.BitsOf(Flipped(a, i, k))[j] != Utils.BitsOf(a)[j] <==> j == 8 * i + 7 - k
  {
    FlippedBitsAt(a, i, k, j);
    BitPosition(j, i, k);
  }

  lemma FlippedBitsAt(a: seq<byte>, i: nat, k: nat, j: nat)
    requires i < |a| && k < 8 && j < 8 * |a|
    ensures Utils.BitsOf(Flipped(a, i, k))[j] != Utils.BitsOf(a)[j] <==> j / 8 == i && j % 8 == 7 - k
  {
    FlippedBitAt(a, i, k, j / 8, 7 - j % 8);
    BitsOfAt(a, j);
    BitsOfAt(Flipped(a, i, k), j);
  }

  /** Bit m of byte q changes under the flip exactly when q == i and m == k. */
  lemma FlippedBitAt(a: seq<byte>, i: nat, k: nat, q: nat, m: nat)
    requires i < |a| && k < 8 && q < |a|
    ensures BitAt(Flipped(a, i, k)[q], m) != BitAt(a[q], m) <==> q == i && m == k
  {
    if q == i {
      XorPow2Changes(a[i], k, m);
    }
  }

  /** Bit j of bytesToBits is bit 7 - j % 8 of byte j / 8. */
  lemma BitsOfAt(bytes: seq<byte>, j: nat)
    requires j < 8 * |bytes|
    ensures j / 8 < |bytes| && Utils.BitsOf(bytes)[j] == BitAt(bytes[j / 8], 7 - j % 8)
  {
    DivBelow(j, 8, |bytes|);
  }

  /** Position j of the bit string is bit 7 - k of byte i exactly when j == 8i + 7 - k. */
  lemma BitPosition(j: nat, i: nat, k: nat)
    requires k < 8
    ensures j == 8 * i + 7 - k <==> j / 8 == i && j % 8 == 7 - k
  {
    DivMulAdd(i, 8, 7 - k);
  }

  /** Flipping the same bit twice gives back the input. */
  lemma FlipTwice(a: seq<byte>, i: nat, k: nat)
    requires i < |a| && k < 8
    ensures Flipped(Flipped(a, i, k), i, k) == a
  {
    XorCommutes(a[i], Pow2(k));
    XorCommutes(Xor(a[i], Pow2(k)), Pow2(k));
    XorCancels(Pow2(k), a[i]);
  }

  /** Changing one byte changes the Hamming distance by the popcount of old ^ new. */
  lemma {:induction false} HammingPointUpdate(a: seq<byte>, i: nat, v: byte)
    requires i < |a|
    ensures Utils.Hamming(a, a[i := v]) == Popcount(Xor(a[i], v))
    decreases |a|
  {
    var b := a[i := v];
    var a', b' := a[..|a| - 1], b[..|b| - 1];
    if i == |a| - 1 {
      assert a' == b';
      Utils.HammingZeroIff(a', b');
    } else {
      assert b' == a'[i := v];
      HammingPointUpdate(a', i, v);
      XorZeroIff(a[|a| - 1], b[|b| - 1]);
    }
  }

  /** Why an avalanche or visualisation run stops before reporting. */
  datatype RunError = InputTooLong | ByteOutOfRange(lastIndex: nat) | DigestRejected

  /** `alert` limit of the avalanche and visualisation inputs. */
  const MaxInputLength: nat := 10000

  /**
   * The input side of the avalanche handler: sanitise, reject more than 10000
   * characters, parse the byte index (clamped to 0..9999) and bit index
   * (clamped to 0..7), encode, reject a byte index past the end, and flip the
   * bit in a copy of the bytes.  The `bitIdx < 0 || bitIdx > 7` test of the
   * source cannot fail after the clamp, so it is not repeated.
   */
  function AvalanchePair(raw: Utils.JsValue, byteValue: string, bitValue: string, utf8: string -> seq<byte>)
    : (r: Result<(seq<byte>, seq<byte>), RunError>)
    ensures var input := Utils.SanitizeInput(raw);
      var byteIdx := Utils.SafeParseInt(byteValue, 0, 9999, 0);
      var bitIdx := Utils.SafeParseInt(bitValue, 0, 7, 0);
      var a := utf8(input);
      (|input| > MaxInputLength ==> r == Err(InputTooLong)) &&
      (|input| <= MaxInputLength && byteIdx >= |a| ==> r == Err(ByteOutOfRange(Max(0, |a| - 1)))) &&
      (|input| <= MaxInputLength && byteIdx < |a| ==>
        0 <= bitIdx < 8 && r == Ok((a, Flipped(a, byteIdx, bitIdx))))
  {
    var input := Utils.SanitizeInput(raw);
    if |input| > MaxInputLength then Err(InputTooLong)
    else
      var byteIdx := Utils.SafeParseInt(byteValue, 0, 9999, 0);
      var bitIdx := Utils.SafeParseInt(bitValue, 0, 7, 0);
      var a := utf8(input);
      if byteIdx >= |a| then Err(ByteOutOfRange(Max(0, |a| - 1)))
      else Ok((a, Flipped(a, byteIdx, bitIdx)))
  }

  /** An accepted avalanche input pair differs in exactly one bit and has the same length. */
  lemma AvalanchePairOneBit(raw: Utils.JsValue, byteValue: string, bitValue: string, utf8: string -> seq<byte>)
    requires AvalanchePair(raw, byteValue, bitValue, utf8).Ok?
    ensures var (a, b) := AvalanchePair(raw, byteValue, bitValue, utf8).value;
      |a| == |b| && Utils.BitDiff(a, b) == 1
  {
    var a := utf8(Utils.SanitizeInput(raw));
    FlipIsOneBit(a, Utils.SafeParseInt(byteValue, 0, 9999, 0), Utils.SafeParseInt(bitValue, 0, 7, 0));
  }

  /** The avalanche input steps, flipping the bit in place in a copy of the encoded input. */
  method AvalancheInputs(raw: Utils.JsValue, byteValue: string, bitValue: string, utf8: string -> seq<byte>)
    returns (r: Result<(seq<byte>, seq<byte>), RunError>)
    ensures r == AvalanchePair(raw, byteValue, bitValue, utf8)
  {
    var input := Utils.SanitizeInput(raw);
    if |input| > MaxInputLength {
      return Err(InputTooLong);
    }
    var byteIdx := Utils.SafeParseInt(byteValue, 0, 9999, 0);
    var bitIdx := Utils.SafeParseInt(bitValue, 0, 7, 0);
    var a := utf8(input);
    var b := new byte[|a|](j requires 0 <= j < |a| => a[j]);
    if byteIdx >= b.Length {
      return Err(ByteOutOfRange(Max(0, b.Length - 1)));
    }
    assert b[..] == a;
    FlipStaysByte(b[byteIdx], bitIdx);
    b[byteIdx] := Xor(b[byteIdx], Pow2(bitIdx));
    r := Ok((a, b[..]));
  }

  /** Both parsed indices always land in range, so only the byte index can be rejected. */
  lemma ParsedIndicesInRange(byteValue: string, bitValue: string)
    ensures 0 <= Utils.SafeParseInt(byteValue, 0, 9999, 0) <= 9999
    ensures 0 <= Utils.SafeParseInt(bitValue, 0, 7, 0) <= 7
  {
  }

  // ---------------------------------------------------------------------------
  // showInputDifferences
  // ---------------------------------------------------------------------------

  /** Byte i of s, or undefined past the end. */
  function ByteAt(s: seq<byte>, i: nat): Option<byte>
  {
    if i < |s| then Some(s[i]) else None
  }

  /** Two hex digits for a byte, `--` for a missing one. */
  function CellText(b: Option<byte>): (t: string)
    ensures |t| == 2
  {
    match b
    case Some(x) => Utils.ByteHex(x)
    case None => "--"
  }

  /** What follows byte i: a newline after every 16th byte, else a space after every 4th. */
  function Separator(i: nat): (sep: string)
    ensures |sep| <= 1
    ensures sep != "" <==> (i + 1) % 4 == 0
    ensures sep == "\n" <==> (i + 1) % 16 == 0
  {
    if (i + 1) % 16 == 0 then "\n" else if (i + 1) % 4 == 0 then " " else ""
  }

  /** One byte of one side of the listing: its text, whether it is highlighted, what follows it. */
  datatype Piece = Piece(text: string, marked: bool, sep: string)

  /** The pieces of the side showing own, compared against other, for positions 0 .. n-1. */
  function Pieces(own: seq<byte>, other: seq<byte>, n: nat): (ps: seq<Piece>)
    ensures |ps| == n
  {
    if n == 0 then []
    else Pieces(own, other, n - 1) + [Piece(CellText(ByteAt(own, n - 1)), ByteAt(own, n - 1) != ByteAt(other, n - 1), Separator(n - 1))]
  }

  /** Piece i shows own's cell at i, highlighted exactly when the two sides' cells differ there. */
  lemma {:induction false} PiecesAt(own: seq<byte>, other: seq<byte>, n: nat, i: nat)
    requires i < n
    ensures Pieces(own, other, n)[i] == Piece(CellText(ByteAt(own, i)), ByteAt(own, i) != ByteAt(other, i), Separator(i))
  {
    if i < n - 1 {
      PiecesAt(own, other, n - 1, i);
    }
  }

  const DiffOpen: string := "<span class=\"diff-char\">"
  const DiffClose: string := "</span>"

  /** The markup of a sequence of pieces: highlighted text wrapped in a diff-char span. */
  function Render(ps: seq<Piece>): (html: string)
    ensures (forall k :: 0 <= k < |ps| ==> !ps[k].marked && |ps[k].text| == 2 && ps[k].sep == "") ==> |html| == 2 * |ps|
    ensures (forall k :: 0 <= k < |ps| ==> |ps[k].text| == 2) ==> |html| >= 2 * |ps|
  {
    if ps == [] then ""
    else
      Render(ps[..|ps| - 1]) + Markup(ps[|ps| - 1])
  }

  /** One piece's markup: its text, wrapped in a diff-char span when highlighted, then its separator. */
  function Markup(p: Piece): (html: string)
    ensures |html| == |p.text| + |p.sep| + (if p.marked then |DiffOpen| + |DiffClose| else 0)
    ensures html[|html| - |p.sep|..] == p.sep
    ensures p.marked ==> html[..|DiffOpen|] == DiffOpen
  {
    (if p.marked then DiffOpen + p.text + DiffClose else p.text) + p.sep
  }

  /**
   * One entry of `differences`: the position and the two sides' cells there.
   * The source keeps the cells' texts (hexA, hexB); the model keeps the cells
   * and renders them with CellText where they are shown.
   */
  datatype Diff = Diff(position: nat, byteA: Option<byte>, byteB: Option<byte>)

  /** The differing positions below n with both sides' cells, in increasing order. */
  function Differences(a: seq<byte>, b: seq<byte>, n: nat): (ds: seq<Diff>)
    ensures |ds| <= n
    ensures forall k :: 0 <= k < |ds| ==> ds[k].position < n
  {
    if n == 0 then []
    else
      var i := n - 1;
      Differences(a, b, i) +
        (if ByteAt(a, i) != ByteAt(b, i) then [Diff(i, ByteAt(a, i), ByteAt(b, i))] else [])
  }

  /** A line of the detail list: one difference, or the count of the ones not shown. */
  datatype DetailLine = Item(position: nat, valueA: string, valueB: string) | More(rest: nat)

  /** Everything showInputDifferences puts on the page, except the percentage. */
  datatype DiffReport = DiffReport(displayA: string, displayB: string, differences: seq<Diff>,
                                   diffCount: nat, totalBytes: nat, details: seq<DetailLine>)

  /**
   * showInputDifferences: decode both inputs, then walk the positions below
   * max(|A|, |B|), appending each side's text (highlighted where the bytes
   * differ) and separator and recording the differences; then the detail list.
   */
  method ShowInputDifferences(inputA: string, inputB: string, encoding: string,
                              atob: string -> Option<seq<byte>>, utf8: string -> seq<byte>)
    returns (r: Result<DiffReport, DecodeError>)
    ensures DecodeInput(inputA, encoding, atob, utf8).Err? ==> r == Err(DecodeInput(inputA, encoding, atob, utf8).error)
    ensures DecodeInput(inputA, encoding, atob, utf8).Ok? && DecodeInput(inputB, encoding, atob, utf8).Err? ==>
      r == Err(DecodeInput(inputB, encoding, atob, utf8).error)
    ensures r.Ok? ==>
      DecodeInput(inputA, encoding, atob, utf8).Ok? && DecodeInput(inputB, encoding, atob, utf8).Ok? &&
      var bytesA := DecodeInput(inputA, encoding, atob, utf8).value;
      var bytesB := DecodeInput(inputB, encoding, atob, utf8).value;
      var n := Max(|bytesA|, |bytesB|);
      r.value.displayA == Render(Pieces(bytesA, bytesB, n)) &&
      r.value.displayB == Render(Pieces(bytesB, bytesA, n)) &&
      r.value.differences == Differences(bytesA, bytesB, n) &&
      r.value.diffCount == |r.value.differences| && r.value.totalBytes == n &&
      DetailsOf(r.value.differences, r.value.details)
  {
    var decodedA := DecodeInput(inputA, encoding, atob, utf8);
    if decodedA.Err? {
      return Err(decodedA.error);
    }
    var decodedB := DecodeInput(inputB, encoding, atob, utf8);
    if decodedB.Err? {
      return Err(decodedB.error);
    }
    var bytesA, bytesB := decodedA.value, decodedB.value;
    var displayA, displayB, differences := DiffListing(bytesA, bytesB);
    var details := DiffDetails(differences);
    r := Ok(DiffReport(displayA, displayB, differences, |differences|, Max(|bytesA|, |bytesB|), details));
  }

  /** The position loop of showInputDifferences. */
  method DiffListing(bytesA: seq<byte>, bytesB: seq<byte>)
    returns (displayA: string, displayB: string, differences: seq<Diff>)
    ensures displayA == Render(Pieces(bytesA, bytesB, Max(|bytesA|, |bytesB|)))
    ensures displayB == Render(Pieces(bytesB, bytesA, Max(|bytesA|, |bytesB|)))
    ensures differences == Differences(bytesA, bytesB, Max(|bytesA|, |bytesB|))
  {
    displayA, displayB := "", "";
    differences := [];
    EmptyListing(bytesA, bytesB);
    var maxLen := Max(|bytesA|, |bytesB|);
    var i := 0;
    while i < maxLen
      invariant 0 <= i <= maxLen
      invariant displayA == Render(Pieces(bytesA, bytesB, i))
      invariant displayB == Render(Pieces(bytesB, bytesA, i))
      invariant differences == Differences(bytesA, bytesB, i)
    {
      displayA, displayB, differences := DiffStep(bytesA, bytesB, i, displayA, displayB, differences);
      i := i + 1;
    }
  }

  /** One pass of the position loop: both sides' cells at i, highlighted where they differ, and the entry if they do. */
  method DiffStep(bytesA: seq<byte>, bytesB: seq<byte>, i: nat, displayA: string, displayB: string, differences: seq<Diff>)
    returns (displayA': string, displayB': string, differences': seq<Diff>)
    requires displayA == Render(Pieces(bytesA, bytesB, i))
    requires displayB == Render(Pieces(bytesB, bytesA, i))
    requires differences == Differences(bytesA, bytesB, i)
    ensures displayA' == Render(Pieces(bytesA, bytesB, i + 1))
    ensures displayB' == Render(Pieces(bytesB, bytesA, i + 1))
    ensures differences' == Differences(bytesA, bytesB, i + 1)
  {
    var byteA := ByteAt(bytesA, i);
    var byteB := ByteAt(bytesB, i);
    var hexA := CellText(byteA);
    var hexB := CellText(byteB);
    var differ := byteA != byteB;
    RenderStep(bytesA, bytesB, i);
    RenderStep(bytesB, bytesA, i);
    displayA' := displayA + Markup(Piece(hexA, differ, Separator(i)));
    displayB' := displayB + Markup(Piece(hexB, differ, Separator(i)));
    differences' := differences;
    if differ {
      differences' := differences + [Diff(i, byteA, byteB)];
    }
  }

  /** Before the first position both listings and the list of differences are empty. */
  lemma EmptyListing(a: seq<byte>, b: seq<byte>)
    ensures Render(Pieces(a, b, 0)) == "" && Render(Pieces(b, a, 0)) == ""
    ensures Differences(a, b, 0) == []
  {
  }

  /** Appending position i to the listing of one side. */
  lemma RenderStep(own: seq<byte>, other: seq<byte>, i: nat)
    ensures Render(Pieces(own, other, i + 1)) ==
      Render(Pieces(own, other, i)) + Markup(Piece(CellText(ByteAt(own, i)), ByteAt(own, i) != ByteAt(other, i), Separator(i)))
  {
    var ps := Pieces(own, other, i + 1);
    assert ps[..i] == Pieces(own, other, i);
  }

  /** The detail list shows the first min(count, 5) differences, then "...他 (count - 5)" when more remain. */
  ghost predicate DetailsOf(ds: seq<Diff>, details: seq<DetailLine>)
  {
    |details| == Min(|ds|, 5) + (if |ds| > 5 then 1 else 0) &&
    (forall k :: 0 <= k < Min(|ds|, 5) ==>
      details[k] == Item(ds[k].position, CellText(ds[k].byteA), CellText(ds[k].byteB))) &&
    (|ds| > 5 ==> details[|details| - 1] == More(|ds| - 5))
  }

  /** The detail loop of showInputDifferences. */
  method DiffDetails(differences: seq<Diff>) returns (details: seq<DetailLine>)
    ensures DetailsOf(differences, details)
  {
    details := [];
    var displayLimit := Min(|differences|, 5);
    var i := 0;
    while i < displayLimit
      invariant 0 <= i <= displayLimit && |details| == i
      invariant forall k :: 0 <= k < i ==>
        details[k] == Item(differences[k].position, CellText(differences[k].byteA), CellText(differences[k].byteB))
    {
      var diff := differences[i];
      details := details + [Item(diff.position, CellText(diff.byteA), CellText(diff.byteB))];
      i := i + 1;
    }
    if |differences| > 5 {
      details := details + [More(|differences| - 5)];
    }
  }

  /** Some entry of ds is at position i. */
  predicate Listed(ds: seq<Diff>, i: nat)
  {
    exists k :: 0 <= k < |ds| && ds[k].position == i
  }

  lemma ListedAppend(ds: seq<Diff>, e: Diff, i: nat)
    ensures Listed(ds + [e], i) <==> Listed(ds, i) || e.position == i
  {
    var ds' := ds + [e];
    if Listed(ds', i) {
      var k :| 0 <= k < |ds'| && ds'[k].position == i;
      if k < |ds| {
        assert ds[k] == ds'[k];
      }
    }
    if Listed(ds, i) {
      var k :| 0 <= k < |ds| && ds[k].position == i;
      assert ds'[k] == ds[k];
    }
    if e.position == i {
      assert ds'[|ds|] == e;
    }
  }

  /** `differences` lists exactly the positions below n where the bytes differ (a missing byte differs). */
  lemma DifferencesExact(a: seq<byte>, b: seq<byte>, n: nat, i: nat)
    ensures Listed(Differences(a, b, n), i) <==> i < n && ByteAt(a, i) != ByteAt(b, i)
  {
    if Listed(Differences(a, b, n), i) {
      DifferencesSound(a, b, n, i);
    } else if i < n && ByteAt(a, i) != ByteAt(b, i) {
      DifferencesComplete(a, b, n, i);
    }
  }

  lemma {:induction false} DifferencesSound(a: seq<byte>, b: seq<byte>, n: nat, i: nat)
    requires Listed(Differences(a, b, n), i)
    ensures i < n && ByteAt(a, i) != ByteAt(b, i)
  {
    if n > 0 {
      ListedStep(a, b, n - 1, i);
      if Listed(Differences(a, b, n - 1), i) {
        DifferencesSound(a, b, n - 1, i);
      }
    }
  }

  lemma {:induction false} DifferencesComplete(a: seq<byte>, b: seq<byte>, n: nat, i: nat)
    requires i < n && ByteAt(a, i) != ByteAt(b, i)
    ensures Listed(Differences(a, b, n), i)
  {
    ListedStep(a, b, n - 1, i);
    if i < n - 1 {
      DifferencesComplete(a, b, n - 1, i);
    }
  }

  lemma ListedStep(a: seq<byte>, b: seq<byte>, n: nat, i: nat)
    ensures Listed(Differences(a, b, n + 1), i) <==>
      Listed(Differences(a, b, n), i) || (i == n && ByteAt(a, n) != ByteAt(b, n))
  {
    DifferencesGrow(a, b, n);
    var d, d' := Differences(a, b, n + 1), Differences(a, b, n);
    if ByteAt(a, n) != ByteAt(b, n) {
      var e := Diff(n, ByteAt(a, n), ByteAt(b, n));
      assert d == d' + [e];
      ListedAppend(d', e, i);
    } else {
      assert d == d';
    }
  }

  /** Going from n to n + 1 adds at most one entry, and keeps the earlier ones. */
  lemma DifferencesGrow(a: seq<byte>, b: seq<byte>, n: nat)
    ensures var d, d' := Differences(a, b, n + 1), Differences(a, b, n);
      d[..|d'|] == d' &&
      (ByteAt(a, n) == ByteAt(b, n) ==> d == d') &&
      (ByteAt(a, n) != ByteAt(b, n) ==> d == d' + [Diff(n, ByteAt(a, n), ByteAt(b, n))])
  {
  }

  /** The list is strictly increasing in position. */
  lemma {:induction false} DifferencesIncreasing(a: seq<byte>, b: seq<byte>, n: nat)
    ensures forall j, k :: 0 <= j < k < |Differences(a, b, n)| ==>
      Differences(a, b, n)[j].position < Differences(a, b, n)[k].position
  {
    if n > 0 {
      DifferencesIncreasing(a, b, n - 1);
      var d, d' := Differences(a, b, n), Differences(a, b, n - 1);
      assert d[..|d'|] == d';
      forall j, k | 0 <= j < k < |d|
        ensures d[j].position < d[k].position
      {
        assert d[j] == d'[j];
        if k < |d'| {
          assert d[k] == d'[k];
        } else {
          assert d[k].position == n - 1;
        }
      }
    }
  }

  /** Each entry carries both sides' cells (None for a missing byte) at a position where they differ. */
  lemma {:induction false} DifferencesValues(a: seq<byte>, b: seq<byte>, n: nat)
    ensures forall k :: 0 <= k < |Differences(a, b, n)| ==>
      var d := Differences(a, b, n)[k];
      d.byteA == ByteAt(a, d.position) && d.byteB == ByteAt(b, d.position) && d.byteA != d.byteB
  {
    if n > 0 {
      DifferencesValues(a, b, n - 1);
      var d, d' := Differences(a, b, n), Differences(a, b, n - 1);
      assert d[..|d'|] == d';
      forall k | 0 <= k < |d|
        ensures d[k].byteA == ByteAt(a, d[k].position) && d[k].byteB == ByteAt(b, d[k].position) && d[k].byteA != d[k].byteB
      {
        if k < |d'| {
          assert d[k] == d'[k];
        }
      }
    }
  }

  /** No differences over max(|A|, |B|) positions exactly when the decoded inputs are equal. */
  lemma NoDifferencesIffEqual(a: seq<byte>, b: seq<byte>)
    ensures Differences(a, b, Max(|a|, |b|)) == [] <==> a == b
  {
    var n := Max(|a|, |b|);
    if a != b {
      var i: nat;
      if |a| != |b| {
        i := Min(|a|, |b|);
      } else {
        i :| 0 <= i < |a| && a[i] != b[i];
      }
      assert ByteAt(a, i) != ByteAt(b, i);
      DifferencesExact(a, b, n, i);
    } else {
      DifferencesOfEqual(a, n);
    }
  }

  lemma {:induction false} DifferencesOfEqual(a: seq<byte>, n: nat)
    ensures Differences(a, a, n) == []
  {
    if n > 0 {
      DifferencesOfEqual(a, n - 1);
    }
  }

  /** The pieces of both sides are highlighted at the same positions, those of the differences. */
  lemma PiecesMarkedTogether(a: seq<byte>, b: seq<byte>, n: nat, i: nat)
    requires i < n
    ensures Pieces(a, b, n)[i].marked == Pieces(b, a, n)[i].marked
    ensures Pieces(a, b, n)[i].marked <==> ByteAt(a, i) != ByteAt(b, i)
  {
    PiecesAt(a, b, n, i);
    PiecesAt(b, a, n, i);
  }

  // ---------------------------------------------------------------------------
  // The collision verdict
  // ---------------------------------------------------------------------------

  /** `toHex(ha) === toHex(hb)` */
  function SameDigest(ha: seq<byte>, hb: seq<byte>): (same: bool)
    ensures same ==> |ha| == |hb|
  {
    Utils.ToHex(ha) == Utils.ToHex(hb)
  }

  /** Comparing hex strings is comparing the digests byte for byte. */
  lemma SameDigestIff(ha: seq<byte>, hb: seq<byte>)
    ensures SameDigest(ha, hb) <==> ha == hb
  {
    if SameDigest(ha, hb) {
      Utils.ToHexInjective(ha, hb);
    }
  }

  /** Under ToyHash16 the shipped sample "4142" / "83" is reported as a collision. */
  lemma ToySampleVerdict(atob: string -> Option<seq<byte>>, utf8: string -> seq<byte>,
                         md5: seq<byte> -> seq<byte>, subtle: HashEngines.SubtleDigest)
    ensures DecodeInput("4142", "hex", atob, utf8) == Ok([0x41, 0x42])
    ensures DecodeInput("83", "hex", atob, utf8) == Ok([0x83])
    ensures var ds := DigestPair([0x41, 0x42], [0x83], "ToyHash16", md5, subtle);
      ds.Some? && SameDigest(ds.value.0, ds.value.1)
  {
    HashEngines.SampleDecodes();
    HashEngines.ToySampleCollides();
  }

  // ---------------------------------------------------------------------------
  // The run handlers, down to the state they leave
  // ---------------------------------------------------------------------------

  /**
   * `await digest(algo, a)` then `await digest(algo, b)`: both digests, or
   * None when either is rejected, which throws into the handler's catch.
   */
  function DigestPair(a: seq<byte>, b: seq<byte>, algo: string,
                      md5: seq<byte> -> seq<byte>, subtle: HashEngines.SubtleDigest)
    : (ds: Option<(seq<byte>, seq<byte>)>)
    ensures ds.Some? <==> HashEngines.Digest(algo, a, md5, subtle).Some? && HashEngines.Digest(algo, b, md5, subtle).Some?
    ensures ds.Some? ==>
      ds.value == (HashEngines.Digest(algo, a, md5, subtle).value, HashEngines.Digest(algo, b, md5, subtle).value)
  {
    match HashEngines.Digest(algo, a, md5, subtle)
    case None => None
    case Some(ha) =>
      match HashEngines.Digest(algo, b, md5, subtle)
      case None => None
      case Some(hb) => Some((ha, hb))
  }

  /** What the avalanche tab shows besides the grids. */
  datatype AvalancheReport = AvalancheReport(hexA: string, hexB: string, diff: int, total: nat,
                                             statsA: Statistics.Stats, statsB: Statistics.Stats)

  /**
   * What the avalanche tab reports for two digests: both hex digests, the
   * number of differing digest bits, the algorithm's nominal width and the
   * statistics of both digests.
   */
  function AvalancheReportOf(ha: seq<byte>, hb: seq<byte>, algo: string): (rep: AvalancheReport)
    ensures |rep.hexA| == 2 * |ha| && |rep.hexB| == 2 * |hb|
    ensures rep.diff == -1 <==> |ha| != |hb|
    ensures rep.statsA.totalBits == 8 * |ha| && rep.statsB.totalBits == 8 * |hb|
  {
    AvalancheReport(Utils.ToHex(ha), Utils.ToHex(hb), Utils.BitDiff(ha, hb), HashEngines.AlgoBitLength(algo),
                    Statistics.HashStatistics(ha, Utils.BitsOf(ha)), Statistics.HashStatistics(hb, Utils.BitsOf(hb)))
  }

  /**
   * When both digests have the algorithm's nominal width, the reported count
   * of differing bits lies between 0 and that width, and is 0 exactly when the
   * digests are equal.
   */
  lemma AvalancheBounded(ha: seq<byte>, hb: seq<byte>, algo: string)
    requires 8 * |ha| == HashEngines.AlgoBitLength(algo) && 8 * |hb| == HashEngines.AlgoBitLength(algo)
    ensures var rep := AvalancheReportOf(ha, hb, algo);
      0 <= rep.diff <= rep.total && (rep.diff == 0 <==> ha == hb)
  {
    Utils.BitDiffProperties(ha, hb);
  }

  /**
   * Under ToyHash16 both digests exist, and the reported count lies between 0
   * and the 16-bit width and is 0 exactly when both inputs have the same digest.
   */
  lemma ToyAvalancheBounded(a: seq<byte>, b: seq<byte>,
                            md5: seq<byte> -> seq<byte>, subtle: HashEngines.SubtleDigest)
    ensures var ds := DigestPair(a, b, "ToyHash16", md5, subtle);
      ds.Some? &&
      var rep := AvalancheReportOf(ds.value.0, ds.value.1, "ToyHash16");
      0 <= rep.diff <= rep.total == 16 &&
      (rep.diff == 0 <==> HashEngines.ToyDigest(a) == HashEngines.ToyDigest(b))
  {
    HashEngines.AlgoBitLengthTable("ToyHash16");
    AvalancheBounded(HashEngines.ToyDigest(a), HashEngines.ToyDigest(b), "ToyHash16");
  }

  /**
   * md5Bytes always fills a 16-byte array, so under MD5 both digests exist, the
   * reported count lies between 0 and 128, and it is 0 exactly when the digests agree.
   */
  lemma Md5AvalancheBounded(a: seq<byte>, b: seq<byte>,
                            md5: seq<byte> -> seq<byte>, subtle: HashEngines.SubtleDigest)
    requires |md5(a)| == 16 && |md5(b)| == 16
    ensures var ds := DigestPair(a, b, "MD5", md5, subtle);
      ds.Some? &&
      var rep := AvalancheReportOf(ds.value.0, ds.value.1, "MD5");
      0 <= rep.diff <= rep.total == 128 &&
      (rep.diff == 0 <==> md5(a) == md5(b))
  {
    HashEngines.AlgoBitLengthTable("MD5");
    AvalancheBounded(md5(a), md5(b), "MD5");
  }

  /** The bits of both digests, and the avalanche report computed by the loop-based helpers. */
  method AvalancheDigests(ha: seq<byte>, hb: seq<byte>, algo: string)
    returns (bitsA: seq<bit>, bitsB: seq<bit>, rep: AvalancheReport)
    ensures bitsA == Utils.BitsOf(ha) && bitsB == Utils.BitsOf(hb)
    ensures rep == AvalancheReportOf(ha, hb, algo)
  {
    var hexA, hexB := Utils.ToHex(ha), Utils.ToHex(hb);
    bitsA := Utils.BytesToBits(ha);
    bitsB := Utils.BytesToBits(hb);
    var diff := Utils.CountBitDiff(ha, hb);
    var total := HashEngines.AlgoBitLength(algo);
    var statsA := Statistics.CalculateHashStatistics(ha, bitsA);
    var statsB := Statistics.CalculateHashStatistics(hb, bitsB);
    rep := AvalancheReport(hexA, hexB, diff, total, statsA, statsB);
  }

  /**
   * The avalanche run: build the input pair, digest both inputs, clear both
   * avalanche selections, record and draw both bit grids, and report the hex
   * digests, the differing digest bits and both statistics.  A rejected input
   * or a rejected digest (both come before the reset) leaves the state as it was.
   */
  method RunAvalanche(st: Interactions.ViewState, raw: Utils.JsValue, byteValue: string, bitValue: string,
                      algo: string, utf8: string -> seq<byte>,
                      md5: seq<byte> -> seq<byte>, subtle: HashEngines.SubtleDigest,
                      width: nat, height: nat)
    returns (r: Result<AvalancheReport, RunError>)
    requires st.Valid()
    modifies st
    ensures st.Valid()
    ensures r.Err? ==> st.selectedBits == old(st.selectedBits) && st.canvasBitData == old(st.canvasBitData)
    ensures var pair := AvalanchePair(raw, byteValue, bitValue, utf8);
      (pair.Err? ==> r == Err(pair.error)) &&
      (pair.Ok? ==>
        var ds := DigestPair(pair.value.0, pair.value.1, algo, md5, subtle);
        (ds.None? ==> r == Err(DigestRejected)) &&
        (ds.Some? ==>
          r == Ok(AvalancheReportOf(ds.value.0, ds.value.1, algo)) &&
          st.canvasBitData == old(st.canvasBitData)[Interactions.AvaA := Utils.BitsOf(ds.value.0)]
                                                   [Interactions.AvaB := Utils.BitsOf(ds.value.1)] &&
          st.Selections() == old(st.Selections())[Interactions.AvaA := {}][Interactions.AvaB := {}]))
  {
    var inputs := AvalancheInputs(raw, byteValue, bitValue, utf8);
    if inputs.Err? {
      return Err(inputs.error);
    }
    var ds := DigestPair(inputs.value.0, inputs.value.1, algo, md5, subtle);
    if ds.None? {
      return Err(DigestRejected);
    }
    var bitsA, bitsB, rep := AvalancheDigests(ds.value.0, ds.value.1, algo);
    assert st.Selections() == old(st.Selections());
    ResetAndDraw(st, Interactions.AvaA, Interactions.AvaB, bitsA, bitsB, width, height);
    r := Ok(rep);
  }

  /** Clear the selections of a pair of canvases, then record and draw their new bits. */
  method ResetAndDraw(st: Interactions.ViewState, idA: string, idB: string, bitsA: seq<bit>, bitsB: seq<bit>,
                      width: nat, height: nat)
    requires st.Valid()
    modifies st
    ensures st.Valid()
    ensures st.canvasBitData == old(st.canvasBitData)[idA := bitsA][idB := bitsB]
    ensures st.Selections() == old(st.Selections())[idA := {}][idB := {}]
  {
    st.ClearSelection(idA);
    st.ClearSelection(idB);
    var _ := st.DrawGridWithTracking(idA, bitsA, width, height);
    var _ := st.DrawGridWithTracking(idB, bitsB, width, height);
  }

  /** What the visualisation tab shows besides the grid. */
  datatype VizReport = VizReport(hex: string, stats: Statistics.Stats)

  /**
   * The visualisation run: sanitise (a missing value counts as ""), reject
   * more than 10000 characters, clear the selection of viz-canvas, digest the
   * UTF-8 bytes, record and draw the bits, and report the hex and statistics.
   * The reset comes before the digest, so a rejected digest leaves viz-canvas
   * with an empty selection over the bits it had before.
   */
  method RunVisualization(st: Interactions.ViewState, raw: Utils.JsValue, algo: string, utf8: string -> seq<byte>,
                          md5: seq<byte> -> seq<byte>, subtle: HashEngines.SubtleDigest,
                          width: nat, height: nat)
    returns (r: Result<VizReport, RunError>)
    requires st.Valid()
    modifies st
    ensures st.Valid()
    ensures var input := Utils.SanitizeInput(raw);
      (|input| > MaxInputLength ==>
        r == Err(InputTooLong) && st.selectedBits == old(st.selectedBits) && st.canvasBitData == old(st.canvasBitData)) &&
      (|input| <= MaxInputLength ==>
        var d := HashEngines.Digest(algo, utf8(input), md5, subtle);
        st.Selections() == old(st.Selections())[Interactions.Viz := {}] &&
        (d.None? ==> r == Err(DigestRejected) && st.canvasBitData == old(st.canvasBitData)) &&
        (d.Some? ==>
          r == Ok(VizReport(Utils.ToHex(d.value), Statistics.HashStatistics(d.value, Utils.BitsOf(d.value)))) &&
          st.canvasBitData == old(st.canvasBitData)[Interactions.Viz := Utils.BitsOf(d.value)]))
  {
    var input := Utils.SanitizeInput(raw);
    if |input| > MaxInputLength {
      return Err(InputTooLong);
    }
    st.ClearSelection(Interactions.Viz);
    var d := HashEngines.Digest(algo, utf8(input), md5, subtle);
    if d.None? {
      return Err(DigestRejected);
    }
    var h := d.value;
    var bits := Utils.BytesToBits(h);
    var hex := Utils.ToHex(h);
    var _ := st.DrawGridWithTracking(Interactions.Viz, bits, width, height);
    var stats := Statistics.CalculateHashStatistics(h, bits);
    r := Ok(VizReport(hex, stats));
  }

  datatype CollisionError = MissingInput | DecodeFailed(cause: DecodeError) | DigestFailed

  /** What the collision tab shows besides the grids; `same` picks the badge. */
  datatype CollisionReport = CollisionReport(hexA: string, hexB: string, statsA: Statistics.Stats,
                                             statsB: Statistics.Stats, same: bool)

  /** The checks of the collision run before anything is drawn: both inputs present and decodable. */
  function CollisionInputs(rawA: Utils.JsValue, rawB: Utils.JsValue, enc: string,
                           atob: string -> Option<seq<byte>>, utf8: string -> seq<byte>)
    : (r: Result<(seq<byte>, seq<byte>), CollisionError>)
    ensures var aText, bText := Utils.Trim(Utils.SanitizeInput(rawA)), Utils.Trim(Utils.SanitizeInput(rawB));
      (aText == "" || bText == "" <==> r == Err(MissingInput)) &&
      (r.Ok? <==>
         aText != "" && bText != "" &&
         DecodeInput(aText, enc, atob, utf8).Ok? && DecodeInput(bText, enc, atob, utf8).Ok?) &&
      (r.Ok? ==> r.value == (DecodeInput(aText, enc, atob, utf8).value, DecodeInput(bText, enc, atob, utf8).value))
  {
    var aText := Utils.Trim(Utils.SanitizeInput(rawA));
    var bText := Utils.Trim(Utils.SanitizeInput(rawB));
    if aText == "" || bText == "" then Err(MissingInput)
    else
      match DecodeInput(aText, enc, atob, utf8)
      case Err(e) => Err(DecodeFailed(e))
      case Ok(a) =>
        match DecodeInput(bText, enc, atob, utf8)
        case Err(e) => Err(DecodeFailed(e))
        case Ok(b) => Ok((a, b))
  }

  /**
   * The collision run: trim and check both inputs, decode them, digest both,
   * clear both collision selections, record and draw both grids, and report
   * the hex digests, both statistics and whether the hex texts agree.  A
   * rejected or undecodable input, or a rejected digest, leaves the state as it was.
   */
  method RunCollision(st: Interactions.ViewState, rawA: Utils.JsValue, rawB: Utils.JsValue, algo: string, enc: string,
                      atob: string -> Option<seq<byte>>, utf8: string -> seq<byte>,
                      md5: seq<byte> -> seq<byte>, subtle: HashEngines.SubtleDigest,
                      width: nat, height: nat)
    returns (r: Result<CollisionReport, CollisionError>)
    requires st.Valid()
    modifies st
    ensures st.Valid()
    ensures r.Err? ==> st.selectedBits == old(st.selectedBits) && st.canvasBitData == old(st.canvasBitData)
    ensures var pair := CollisionInputs(rawA, rawB, enc, atob, utf8);
      (pair.Err? ==> r == Err(pair.error)) &&
      (pair.Ok? ==>
        var ds := DigestPair(pair.value.0, pair.value.1, algo, md5, subtle);
        (ds.None? ==> r == Err(DigestFailed)) &&
        (ds.Some? ==>
          r == Ok(CollisionReportOf(ds.value.0, ds.value.1)) &&
          st.canvasBitData == old(st.canvasBitData)[Interactions.ColA := Utils.BitsOf(ds.value.0)]
                                                   [Interactions.ColB := Utils.BitsOf(ds.value.1)] &&
          st.Selections() == old(st.Selections())[Interactions.ColA := {}][Interactions.ColB := {}]))
  {
    var inputs := CollisionInputs(rawA, rawB, enc, atob, utf8);
    if inputs.Err? {
      return Err(inputs.error);
    }
    var ds := DigestPair(inputs.value.0, inputs.value.1, algo, md5, subtle);
    if ds.None? {
      return Err(DigestFailed);
    }
    var bitsA, bitsB, rep := CollisionDigests(ds.value.0, ds.value.1);
    assert st.Selections() == old(st.Selections());
    ResetAndDraw(st, Interactions.ColA, Interactions.ColB, bitsA, bitsB, width, height);
    r := Ok(rep);
  }

  /**
   * What the collision tab reports for two digests: both hex digests, both
   * statistics, and whether the digests are equal, which is exactly when the
   * two hex texts shown are equal.
   */
  function CollisionReportOf(ha: seq<byte>, hb: seq<byte>): (rep: CollisionReport)
    ensures rep.same <==> rep.hexA == rep.hexB
    ensures rep.statsA.totalBits == 8 * |ha| && rep.statsB.totalBits == 8 * |hb|
  {
    Utils.ToHexInjective(ha, hb);
    CollisionReport(Utils.ToHex(ha), Utils.ToHex(hb), Statistics.HashStatistics(ha, Utils.BitsOf(ha)),
                    Statistics.HashStatistics(hb, Utils.BitsOf(hb)), ha == hb)
  }

  /** The bits of both collision digests, and the report computed by the loop-based helpers. */
  method CollisionDigests(ha: seq<byte>, hb: seq<byte>)
    returns (bitsA: seq<bit>, bitsB: seq<bit>, rep: CollisionReport)
    ensures bitsA == Utils.BitsOf(ha) && bitsB == Utils.BitsOf(hb)
    ensures rep == CollisionReportOf(ha, hb)
  {
    bitsA := Utils.BytesToBits(ha);
    bitsB := Utils.BytesToBits(hb);
    var statsA := Statistics.CalculateHashStatistics(ha, bitsA);
    var statsB := Statistics.CalculateHashStatistics(hb, bitsB);
    var hexA, hexB := Utils.ToHex(ha), Utils.ToHex(hb);
    var same := SameDigest(ha, hb);
    SameDigestIff(ha, hb);
    rep := CollisionReport(hexA, hexB, statsA, statsB, same);
  }
}
