/**
 * hash-engines.js: the digest widths of the supported algorithms, the
 * educational ToyHash16 (byte sum modulo 65536, big-endian) and the dispatch
 * of digest.  MD5 and the SHA family are computed by foreign code, so the
 * model takes them as function parameters.
 */
module HashEngines {
  import opened Common
  import Utils

  // ---------------------------------------------------------------------------
  // algoBitLength
  // ---------------------------------------------------------------------------

  /** The bit length of the digest of algo: a total table with default 256. */
  function AlgoBitLength(algo: string): (n: nat)
    ensures n == 16 || n == 128 || n == 160 || n == 256 || n == 512
    ensures algo != "SHA-1" && algo != "SHA-512" && algo != "MD5" && algo != "ToyHash16" ==> n == 256
  {
    match algo
    case "SHA-1" => 160
    case "SHA-256" => 256
    case "SHA-512" => 512
    case "MD5" => 128
    case "ToyHash16" => 16
    case _ => 256
  }

  /** The five named entries of the table; every width is a whole number of bytes. */
  lemma AlgoBitLengthTable(algo: string)
    ensures AlgoBitLength("SHA-1") == 160 && AlgoBitLength("SHA-256") == 256
    ensures AlgoBitLength("SHA-512") == 512 && AlgoBitLength("MD5") == 128
    ensures AlgoBitLength("ToyHash16") == 16
    ensures AlgoBitLength(algo) % 8 == 0 && AlgoBitLength(algo) >= 16
  {
  }

  // ---------------------------------------------------------------------------
  // toyHash16
  // ---------------------------------------------------------------------------

  /** The plain sum of the bytes. */
  function Sum(bytes: seq<byte>): (s: nat)
    ensures s <= 255 * |bytes|
    ensures s == 0 <==> forall i :: 0 <= i < |bytes| ==> bytes[i] == 0
  {
    if bytes == [] then 0 else Sum(bytes[..|bytes| - 1]) + bytes[|bytes| - 1]
  }

  /** The digest toyHash16 returns: the sum modulo 65536 as two bytes, high byte first. */
  function ToyDigest(bytes: seq<byte>): (d: seq<byte>)
    ensures |d| == 2
    ensures d[0] as int * 256 + d[1] as int == Sum(bytes) % 65536
  {
    var s := Sum(bytes) % 65536;
    [s / 256, s % 256]
  }

  /**
   * toyHash16: `sum = (sum + b) & 0xFFFF` for every byte, then
   * `[(sum >>> 8) & 0xFF, sum & 0xFF]`.  The sum is never negative, so
   * `& 0xFFFF` is `% 65536`, and for sum < 65536 `(sum >>> 8) & 0xFF` is
   * `sum / 256` and `sum & 0xFF` is `sum % 256`.
   */
  method ToyHash16(bytes: seq<byte>) returns (d: seq<byte>)
    ensures d == ToyDigest(bytes)
  {
    var sum: nat := 0;
    var i := 0;
    while i < |bytes|
      invariant 0 <= i <= |bytes|
      invariant sum == Sum(bytes[..i]) % 65536
    {
      assert bytes[..i + 1][..i] == bytes[..i];
      ModAddStep(Sum(bytes[..i]), bytes[i]);
      sum := (sum + bytes[i]) % 65536;
      i := i + 1;
    }
    assert bytes[..i] == bytes;
    d := [sum / 256, sum % 256];
  }

  lemma ModAddStep(s: nat, b: nat)
    ensures (s % 65536 + b) % 65536 == (s + b) % 65536
  {
  }

  /** The digest is two bytes, that is exactly algoBitLength("ToyHash16") bits. */
  lemma ToyDigestWidth(bytes: seq<byte>)
    ensures 8 * |ToyDigest(bytes)| == AlgoBitLength("ToyHash16")
  {
  }

  /** Two inputs collide under ToyHash16 exactly when their byte sums agree modulo 65536. */
  lemma ToyCollisionIff(a: seq<byte>, b: seq<byte>)
    ensures ToyDigest(a) == ToyDigest(b) <==> Sum(a) % 65536 == Sum(b) % 65536
  {
    var da, db := ToyDigest(a), ToyDigest(b);
    if Sum(a) % 65536 == Sum(b) % 65536 {
      assert da == db;
    }
  }

  /** The empty input hashes to [0, 0]. */
  lemma ToyDigestEmpty()
    ensures ToyDigest([]) == [0, 0]
  {
  }

  /** Appending a zero byte leaves the digest unchanged. */
  lemma ToyDigestAppendZero(bytes: seq<byte>)
    ensures ToyDigest(bytes + [0]) == ToyDigest(bytes)
  {
    assert (bytes + [0])[..|bytes|] == bytes;
  }

  /** Only the multiset of bytes matters: reordering the input does not change the digest. */
  lemma ToyDigestOrderIndependent(a: seq<byte>, b: seq<byte>)
    requires multiset(a) == multiset(b)
    ensures ToyDigest(a) == ToyDigest(b)
  {
    SumPermutation(a, b);
  }

  lemma {:induction false} SumPermutation(a: seq<byte>, b: seq<byte>)
    requires multiset(a) == multiset(b)
    ensures Sum(a) == Sum(b)
    decreases |a|
  {
    if a != [] {
      var j := MatchLast(a, b);
      SumPermutation(a[..|a| - 1], b[..j] + b[j + 1..]);
      SumRemove(b, j);
    } else {
      assert |b| == |multiset(b)| == 0;
    }
  }

  /** The last element of a occurs in its permutation b at some j, and removing both leaves permutations. */
  lemma MatchLast(a: seq<byte>, b: seq<byte>) returns (j: nat)
    requires a != [] && multiset(a) == multiset(b)
    ensures j < |b| && b[j] == a[|a| - 1]
    ensures multiset(a[..|a| - 1]) == multiset(b[..j] + b[j + 1..])
  {
    var x := a[|a| - 1];
    var a' := a[..|a| - 1];
    assert a == a' + [x];
    assert x in multiset(b);
    j :| 0 <= j < |b| && b[j] == x;
    var b' := b[..j] + b[j + 1..];
    assert b == b[..j] + [x] + b[j + 1..];
    assert multiset(b) == multiset(b') + multiset{x};
    assert multiset(a) == multiset(a') + multiset{x};
    assert multiset(a') == multiset(a) - multiset{x};
    assert multiset(b') == multiset(b) - multiset{x};
  }

  /** Removing element j takes b[j] off the sum. */
  lemma {:induction false} SumRemove(b: seq<byte>, j: nat)
    requires j < |b|
    ensures Sum(b) == Sum(b[..j] + b[j + 1..]) + b[j]
    decreases |b|
  {
    var rest := b[..j] + b[j + 1..];
    if j == |b| - 1 {
      assert rest == b[..|b| - 1];
    } else {
      var init := b[..|b| - 1];
      SumRemove(init, j);
      assert init[..j] == b[..j];
      assert init[j + 1..] == b[j + 1..|b| - 1];
      assert rest[..|rest| - 1] == init[..j] + init[j + 1..];
      assert rest[|rest| - 1] == b[|b| - 1];
    }
  }

  /** The bytes of the shipped collision sample, "AB" and 0x83, have the same digest. */
  lemma ToySampleCollides()
    ensures ToyDigest([0x41, 0x42]) == ToyDigest([0x83]) == [0x00, 0x83]
  {
    var a: seq<byte> := [0x41, 0x42];
    var b: seq<byte> := [0x83];
    assert Sum(a) == 0x83 by {
      assert a[..1] == [0x41] && a[..1][..0] == [];
    }
    assert Sum(b) == 0x83 by {
      assert b[..0] == [];
    }
  }

  /** The hex texts of the shipped collision sample, "4142" and "83", decode to those bytes. */
  lemma SampleDecodes()
    ensures Utils.HexDecode("4142") == Ok([0x41, 0x42])
    ensures Utils.HexDecode("83") == Ok([0x83])
  {
    var a: seq<byte> := [0x41, 0x42];
    var b: seq<byte> := [0x83];
    assert Utils.ToHex(a) == "4142" by {
      assert a[1..] == [0x42] && a[1..][1..] == [];
    }
    assert Utils.ToHex(b) == "83" by {
      assert b[1..] == [];
    }
    Utils.HexRoundTrip(a);
    Utils.HexRoundTrip(b);
  }

  // ---------------------------------------------------------------------------
  // digest
  // ---------------------------------------------------------------------------

  /** crypto.subtle.digest(name, data): the digest bytes, or None when the promise rejects. */
  type SubtleDigest = (string, seq<byte>) -> Option<seq<byte>>

  /**
   * digest(algo, data): MD5 goes to the md5 library, ToyHash16 to toyHash16,
   * every other name to crypto.subtle.digest, the only one of the three that
   * can fail.  The two foreign digests are parameters of the model.
   */
  function Digest(algo: string, data: seq<byte>,
                  md5: seq<byte> -> seq<byte>, subtle: SubtleDigest): (d: Option<seq<byte>>)
    ensures algo == "ToyHash16" ==> d == Some(ToyDigest(data))
    ensures algo == "MD5" ==> d == Some(md5(data))
    ensures algo != "MD5" && algo != "ToyHash16" ==> d == subtle(algo, data)
    ensures d.None? ==> algo != "MD5" && algo != "ToyHash16"
  {
    if algo == "MD5" then Some(md5(data))
    else if algo == "ToyHash16" then Some(ToyDigest(data))
    else subtle(algo, data)
  }

  /** Whatever the foreign digests do, a ToyHash16 digest exists and is algoBitLength("ToyHash16") bits wide. */
  lemma DigestToyWidth(data: seq<byte>, md5: seq<byte> -> seq<byte>, subtle: SubtleDigest)
    ensures Digest("ToyHash16", data, md5, subtle).Some?
    ensures 8 * |Digest("ToyHash16", data, md5, subtle).value| == AlgoBitLength("ToyHash16")
  {
  }
}
