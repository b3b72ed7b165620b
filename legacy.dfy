/**
 * script.js, the single-file predecessor of js/: the pieces whose behaviour
 * differs from the js/ versions.  Its countBitDiff compares only the common
 * prefix and counts bits through the binary string; highlightCharDiff marks
 * the characters of one text that differ from another; the collision badge
 * has a third, "mock example" outcome.  Its toHex, hexToBytes, bytesToBits,
 * decodeByEncoding and avalanche flip are the same code as in js/ and are
 * modelled once, in Utils and App.
 */
module Legacy {
  import opened Common
  import opened BitArith
  import Utils

  // ---------------------------------------------------------------------------
  // countBitDiff (common prefix)
  // ---------------------------------------------------------------------------

  /** x.toString(2): binary digits, most significant first, "0" for zero. */
  function BinaryString(x: nat): (s: string)
    ensures |s| >= 1
  {
    if x < 2 then [DigitChar(x)] else BinaryString(x / 2) + [DigitChar(x % 2)]
  }

  /** s.replace(/0/g, "") */
  function WithoutZeros(s: string): (r: string)
    ensures |r| <= |s|
    ensures forall i :: 0 <= i < |r| ==> r[i] != '0'
  {
    if s == [] then []
    else WithoutZeros(s[..|s| - 1]) + (if s[|s| - 1] == '0' then [] else [s[|s| - 1]])
  }

  /** Removing the zeros keeps every '1' of the string. */
  lemma {:induction false} WithoutZerosKeepsOnes(s: string)
    ensures multiset(WithoutZeros(s))['1'] == multiset(s)['1']
  {
    if s != [] {
      WithoutZerosKeepsOnes(s[..|s| - 1]);
      assert s == s[..|s| - 1] + [s[|s| - 1]];
    }
  }

  /** Deleting the zeros of the binary string leaves exactly popcount(x) characters. */
  lemma {:induction false} BinaryOnes(x: nat)
    ensures |WithoutZeros(BinaryString(x))| == Popcount(x)
  {
    if x >= 2 {
      BinaryOnes(x / 2);
      BinaryDigit(x % 2);
      WithoutZerosSnoc(BinaryString(x / 2), DigitChar(x % 2));
    } else {
      assert Popcount(x / 2) == 0;
    }
  }

  /** One more character adds one to the zero-free length unless it is '0'. */
  lemma WithoutZerosSnoc(s: string, c: char)
    ensures |WithoutZeros(s + [c])| == |WithoutZeros(s)| + (if c == '0' then 0 else 1)
  {
    assert (s + [c])[..|s|] == s;
  }

  /** The digit toString(2) writes for a bit is '0' exactly for 0. */
  lemma BinaryDigit(b: nat)
    requires b < 2
    ensures DigitChar(b) == '0' <==> b == 0
  {
    if b == 1 {
      assert DigitChar(1) == '1';
    }
  }

  /** The common-prefix distance: Hamming distance of the first min(|a|, |b|) bytes. */
  function PrefixBitDiff(a: seq<byte>, b: seq<byte>): (d: nat)
    ensures d <= 8 * Min(|a|, |b|)
  {
    var len := Min(|a|, |b|);
    Utils.Hamming(a[..len], b[..len])
  }

  /**
   * countBitDiff of script.js: for i < min(|a|, |b|) add the number of
   * non-zero digits of (a[i] ^ b[i]).toString(2).  `>>> 0` leaves a byte
   * unchanged.
   */
  method CountBitDiffLegacy(a: seq<byte>, b: seq<byte>) returns (diff: nat)
    ensures diff == PrefixBitDiff(a, b)
  {
    diff := 0;
    var len := Min(|a|, |b|);
    var i := 0;
    while i < len
      invariant 0 <= i <= len
      invariant diff == Utils.Hamming(a[..i], b[..i])
    {
      BinaryOnes(Xor(a[i], b[i]));
      assert a[..i + 1][..i] == a[..i] && b[..i + 1][..i] == b[..i];
      diff := diff + |WithoutZeros(BinaryString(Xor(a[i], b[i])))|;
      i := i + 1;
    }
  }

  /** The legacy count is symmetric, at most 8 per compared byte, and agrees with js/utils.js on equal lengths. */
  lemma PrefixBitDiffProperties(a: seq<byte>, b: seq<byte>)
    ensures PrefixBitDiff(a, b) == PrefixBitDiff(b, a)
    ensures |a| == |b| ==> PrefixBitDiff(a, b) == Utils.BitDiff(a, b)
  {
    var len := Min(|a|, |b|);
    Utils.HammingSymmetric(a[..len], b[..len]);
    assert a[..|a|] == a && b[..|b|] == b;
  }

  /** When one input is a prefix of the other the legacy count is 0, though js/utils.js reports -1 for unequal lengths. */
  lemma PrefixBitDiffOfPrefix(a: seq<byte>, b: seq<byte>)
    requires |a| <= |b| && a == b[..|a|]
    ensures PrefixBitDiff(a, b) == 0 && PrefixBitDiff(b, a) == 0
    ensures |a| < |b| ==> Utils.BitDiff(a, b) == -1
  {
    assert a[..|a|] == a;
    Utils.HammingZeroIff(a, b[..|a|]);
    PrefixBitDiffProperties(a, b);
  }

  /** The legacy count is 0 exactly when the common prefixes agree. */
  lemma PrefixBitDiffZeroIff(a: seq<byte>, b: seq<byte>)
    ensures PrefixBitDiff(a, b) == 0 <==> a[..Min(|a|, |b|)] == b[..Min(|a|, |b|)]
  {
    var len := Min(|a|, |b|);
    Utils.HammingZeroIff(a[..len], b[..len]);
  }

  // ---------------------------------------------------------------------------
  // highlightCharDiff
  // ---------------------------------------------------------------------------

  /** One character of `text` in the output: its position, the character, and whether it is wrapped in a span. */
  datatype CharPiece = CharPiece(position: nat, ch: char, marked: bool)

  /** The pieces for positions 0 .. n-1 of text; position i is marked when other has no character there or a different one. */
  function CharPieces(text: string, other: string, n: nat): (ps: seq<CharPiece>)
    requires n <= |text|
    ensures |ps| == n
  {
    if n == 0 then []
    else CharPieces(text, other, n - 1) + [CharPiece(n - 1, text[n - 1], n - 1 >= |other| || text[n - 1] != other[n - 1])]
  }

  /** Piece i carries text[i], and is marked exactly when i >= |other| or text[i] != other[i]. */
  lemma {:induction false} CharPiecesAt(text: string, other: string, n: nat, i: nat)
    requires i < n <= |text|
    ensures CharPieces(text, other, n)[i] == CharPiece(i, text[i], i >= |other| || text[i] != other[i])
  {
    if i < n - 1 {
      CharPiecesAt(text, other, n - 1, i);
    }
  }

  /** The opening tag of a highlighted character, naming its position. */
  function SpanOpen(i: nat): (tag: string)
    ensures |tag| > |DecimalString(i)| + 5
    ensures tag[..5] == "<span" && tag[|tag| - 1] == '>'
  {
    var rest := " class=\"diff-char\" title=\"Position " + DecimalString(i) + ": Different character\">";
    assert ("<span" + rest)[..5] == "<span";
    "<span" + rest
  }

  const SpanClose: string := "</span>"

  /** The markup of one piece; escape stands for escapeHtml on a one-character string. */
  function CharMarkup(p: CharPiece, escape: char -> string): (html: string)
    ensures |html| >= |escape(p.ch)|
    ensures p.marked ==> |html| == |SpanOpen(p.position)| + |escape(p.ch)| + |SpanClose|
    ensures p.marked ==>
      html[..|SpanOpen(p.position)|] == SpanOpen(p.position) && html[|html| - |SpanClose|..] == SpanClose
  {
    if p.marked then SpanOpen(p.position) + escape(p.ch) + SpanClose else escape(p.ch)
  }

  /** The output for a sequence of pieces: never shorter than the escaped characters it shows. */
  function RenderChars(ps: seq<CharPiece>, escape: char -> string): (html: string)
    ensures |html| >= |PlainChars(ps, escape)|
  {
    if ps == [] then "" else RenderChars(ps[..|ps| - 1], escape) + CharMarkup(ps[|ps| - 1], escape)
  }

  /** The output with the markup removed: only the escaped characters. */
  function PlainChars(ps: seq<CharPiece>, escape: char -> string): string
  {
    if ps == [] then "" else PlainChars(ps[..|ps| - 1], escape) + escape(ps[|ps| - 1].ch)
  }

  /** Every character of s escaped, in order. */
  function EscapeAll(s: string, escape: char -> string): string
  {
    if s == [] then "" else EscapeAll(s[..|s| - 1], escape) + escape(s[|s| - 1])
  }

  /** With the markup removed, the output is text escaped character by character: nothing of other appears. */
  lemma {:induction false} PlainIsText(text: string, other: string, n: nat, escape: char -> string)
    requires n <= |text|
    ensures PlainChars(CharPieces(text, other, n), escape) == EscapeAll(text[..n], escape)
  {
    if n > 0 {
      PlainIsText(text, other, n - 1, escape);
      var ps := CharPieces(text, other, n);
      assert ps[..n - 1] == CharPieces(text, other, n - 1);
      assert text[..n][..n - 1] == text[..n - 1];
    }
  }

  /**
   * highlightCharDiff(text, otherText): walk the positions below
   * max(|text|, |otherText|); a position past the end of text is skipped, a
   * character that differs from otherText's (or has none to compare with) is
   * wrapped in a diff-char span, any other is appended escaped.
   */
  method HighlightCharDiff(text: string, other: string, escape: char -> string) returns (result: string)
    ensures result == RenderChars(CharPieces(text, other, |text|), escape)
  {
    var maxLen := Max(|text|, |other|);
    result := "";
    var i := 0;
    while i < maxLen
      invariant 0 <= i <= maxLen
      invariant result == RenderChars(CharPieces(text, other, Min(i, |text|)), escape)
    {
      result := AppendPosition(text, other, i, escape, result);
      i := i + 1;
    }
  }

  /** One pass of the loop of highlightCharDiff: '' stands for a position past the end of a text. */
  method AppendPosition(text: string, other: string, i: nat, escape: char -> string, result: string)
    returns (result': string)
    requires i < Max(|text|, |other|)
    requires result == RenderChars(CharPieces(text, other, Min(i, |text|)), escape)
    ensures result' == RenderChars(CharPieces(text, other, Min(i + 1, |text|)), escape)
  {
    var ch: Option<char> := if i < |text| then Some(text[i]) else None;
    var otherCh: Option<char> := if i < |other| then Some(other[i]) else None;
    if i < |text| {
      HighlightStep(text, other, i, escape);
    }
    result' := result;
    if ch != otherCh {
      if ch.Some? {
        result' := result + (SpanOpen(i) + escape(ch.value) + SpanClose);
      }
    } else {
      result' := result + escape(ch.value);
    }
  }

  /** Position i adds its piece's markup to the output. */
  lemma HighlightStep(text: string, other: string, i: nat, escape: char -> string)
    requires i < |text|
    ensures RenderChars(CharPieces(text, other, i + 1), escape) ==
      RenderChars(CharPieces(text, other, i), escape) +
      (if i >= |other| || text[i] != other[i] then SpanOpen(i) + escape(text[i]) + SpanClose else escape(text[i]))
  {
    assert CharPieces(text, other, i + 1)[..i] == CharPieces(text, other, i);
  }

  // ---------------------------------------------------------------------------
  // The collision badge
  // ---------------------------------------------------------------------------

  /** s.includes(sub): sub occurs in s starting at some position. */
  predicate Contains(s: string, sub: string)
    ensures Contains(s, sub) ==> |sub| <= |s|
    ensures sub == [] ==> Contains(s, sub)
    decreases |s|
  {
    |sub| <= |s| && (s[..|sub|] == sub || Contains(s[1..], sub))
  }

  /** An occurrence at position k is found. */
  lemma {:induction false} ContainsAt(s: string, sub: string, k: nat)
    requires k + |sub| <= |s| && s[k..k + |sub|] == sub
    ensures Contains(s, sub)
  {
    if k > 0 {
      assert s[1..][k - 1..k - 1 + |sub|] == s[k..k + |sub|];
      ContainsAt(s[1..], sub, k - 1);
    }
  }

  /** sub occurs in s at position k. */
  predicate OccursAt(s: string, sub: string, k: nat)
  {
    k + |sub| <= |s| && s[k..k + |sub|] == sub
  }

  /** Conversely, a found substring occurs at some position. */
  lemma {:induction false} ContainsFound(s: string, sub: string)
    requires Contains(s, sub)
    ensures exists k: nat :: OccursAt(s, sub, k)
  {
    if s[..|sub|] == sub {
      assert OccursAt(s, sub, 0);
    } else {
      ContainsFound(s[1..], sub);
      var k: nat :| OccursAt(s[1..], sub, k);
      assert s[k + 1..k + 1 + |sub|] == s[1..][k..k + |sub|];
      assert OccursAt(s, sub, k + 1);
    }
  }

  /** `sampleId && (includes 'demo' || 'wang' || 'flame' || 'shattered')`; None is a missing select element. */
  predicate IsDemoSample(sampleId: Option<string>)
    ensures IsDemoSample(sampleId) ==> sampleId.Some? && |sampleId.value| >= 4
  {
    sampleId.Some? && sampleId.value != "" &&
    (Contains(sampleId.value, "demo") || Contains(sampleId.value, "wang") ||
     Contains(sampleId.value, "flame") || Contains(sampleId.value, "shattered"))
  }

  datatype Badge = Collision | DifferentMock | Different

  /** The badge of the collision run of script.js. */
  function CollisionBadge(same: bool, sampleId: Option<string>, algo: string): (b: Badge)
    ensures b == Collision <==> same
  {
    if same then Collision
    else if IsDemoSample(sampleId) && algo != "ToyHash16" then DifferentMock
    else Different
  }

  /** With differing digests the mock badge appears exactly for a demo sample id under an algorithm other than ToyHash16. */
  lemma MockBadgeIff(same: bool, sampleId: Option<string>, algo: string)
    requires !same
    ensures CollisionBadge(same, sampleId, algo) == DifferentMock <==>
      sampleId.Some? && algo != "ToyHash16" &&
      (Contains(sampleId.value, "demo") || Contains(sampleId.value, "wang") ||
       Contains(sampleId.value, "flame") || Contains(sampleId.value, "shattered"))
  {
  }

  /** The fallback MD5 sample "md5_wang_collision_1" counts as a demo, and "" or no id never does. */
  lemma DemoSamples()
    ensures IsDemoSample(Some("md5_wang_collision_1"))
    ensures IsDemoSample(Some("toy16_collision_demo_1"))
    ensures !IsDemoSample(Some("")) && !IsDemoSample(None)
  {
    var w := "md5_wang_collision_1";
    assert w[4..8] == "wang";
    ContainsAt(w, "wang", 4);
    var t := "toy16_collision_demo_1";
    assert t[16..20] == "demo";
    ContainsAt(t, "demo", 16);
  }

  /** With differing digests the ToyHash16 demo sample still gets the plain "different" badge. */
  lemma ToyDemoNotMock(sampleId: Option<string>)
    ensures CollisionBadge(false, sampleId, "ToyHash16") == Different
  {
  }
}
