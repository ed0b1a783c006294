/**
 * `compute_book_hash` of lib.rs: XxHash64 (seed 0) over at most the first
 * MiB of the book file, read in chunks no larger than the 8 KiB buffer,
 * printed as 16 lower-case hexadecimal digits. The hash function and the
 * file reader lie outside this model and are parameters: the reader is
 * described by how many bytes each successive `read` call hands over, or
 * that it fails.
 */
module BookHash {
  import opened Wrappers
  import Commands

  type byte = Commands.byte

  /** `u64`. */
  newtype u64 = x: int | 0 <= x < 0x1_0000_0000_0000_0000

  /** How much of the file is hashed: `1 << 20` bytes. */
  const Limit: nat := 0x10_0000

  /** The read buffer: 8 KiB. */
  const BufferSize: nat := 8 * 1024

  /** An I/O error of opening or reading the file. */
  datatype IoError = IoError

  function Min(a: nat, b: nat): nat
  {
    if a <= b then a else b
  }

  function Concat(chunks: seq<seq<byte>>): seq<byte>
  {
    if |chunks| == 0 then [] else Concat(chunks[..|chunks| - 1]) + chunks[|chunks| - 1]
  }

  const HexDigits := "0123456789abcdef"

  /** The last `width` hexadecimal digits of `h`, most significant first, zero-padded. */
  function Hex(h: nat, width: nat): (s: string)
    ensures |s| == width
    ensures forall i :: 0 <= i < |s| ==> s[i] in HexDigits
    decreases width
  {
    if width == 0 then "" else Hex(h / 16, width - 1) + [HexDigits[h % 16]]
  }

  /** `format!("{hash:016x}")`. */
  function Hex16(h: u64): (s: string)
    ensures |s| == 16
  {
    Hex(h as nat, 16)
  }

  function DigitValue(c: char): (d: nat)
    requires c in HexDigits
    ensures d < 16 && HexDigits[d] == c
  {
    if '0' <= c <= '9' then c as nat - '0' as nat else c as nat - 'a' as nat + 10
  }

  /** Reads a string of hexadecimal digits back as a number. */
  function ParseHex(s: string): nat
    requires forall i :: 0 <= i < |s| ==> s[i] in HexDigits
  {
    if |s| == 0 then 0 else ParseHex(s[..|s| - 1]) * 16 + DigitValue(s[|s| - 1])
  }

  function Pow16(n: nat): (p: nat)
    ensures p > 0
  {
    if n == 0 then 1 else 16 * Pow16(n - 1)
  }

  /** Reading back the digits of `Hex(h, width)` gives `h` whenever `width` digits suffice for it. */
  lemma {:induction false} ParseHexOfHex(h: nat, width: nat)
    requires h < Pow16(width)
    ensures ParseHex(Hex(h, width)) == h
    decreases width
  {
    if width > 0 {
      var s := Hex(h, width);
      assert s[..|s| - 1] == Hex(h / 16, width - 1);
      assert h / 16 < Pow16(width - 1);
      ParseHexOfHex(h / 16, width - 1);
      assert DigitValue(s[|s| - 1]) == h % 16;
    }
  }

  /** The 16 digits printed for a hash read back as that hash: the hash string loses nothing. */
  lemma Hex16RoundTrip(h: u64)
    ensures ParseHex(Hex16(h)) == h as nat
  {
    assert Pow16(4) == 0x1_0000 by {
      assert Pow16(1) == 16 && Pow16(2) == 0x100 && Pow16(3) == 0x1000;
    }
    assert Pow16(8) == 0x1_0000_0000 by {
      assert Pow16(5) == 0x10_0000 && Pow16(6) == 0x100_0000 && Pow16(7) == 0x1000_0000;
    }
    assert Pow16(12) == 0x1_0000_0000_0000 by {
      assert Pow16(9) == 0x10_0000_0000 && Pow16(10) == 0x100_0000_0000 && Pow16(11) == 0x1000_0000_0000;
    }
    assert Pow16(16) == 0x1_0000_0000_0000_0000 by {
      assert Pow16(13) == 0x10_0000_0000_0000 && Pow16(14) == 0x100_0000_0000_0000 && Pow16(15) == 0x1000_0000_0000_0000;
    }
    ParseHexOfHex(h as nat, 16);
  }

  /** Different hashes give different strings. */
  lemma Hex16Injective(g: u64, h: u64)
    requires Hex16(g) == Hex16(h)
    ensures g == h
  {
    Hex16RoundTrip(g);
    Hex16RoundTrip(h);
  }

  /**
   * The loop of `compute_book_hash`. `offers(n)` describes the `n`-th call
   * to `read`: `None` when it fails, otherwise how many bytes the reader
   * offers at most; it hands over at least one byte while any remain and
   * never more than asked for. The hasher is fed every chunk read; the
   * chunks are returned to state that.
   */
  method ComputeBookHash(data: seq<byte>, offers: nat -> Option<nat>, xxh: seq<byte> -> u64)
    returns (r: Result<string, IoError>, chunks: seq<seq<byte>>)
    ensures forall i :: 0 <= i < |chunks| ==> 1 <= |chunks[i]| <= BufferSize
    ensures forall n :: 0 <= n < |chunks| ==> offers(n).Some?
    ensures r.Failure? ==> offers(|chunks|).None?
    ensures r.Success? ==> Concat(chunks) == data[..Min(|data|, Limit)]
    ensures r.Success? ==> |r.value| == 16 && r.value == Hex16(xxh(data[..Min(|data|, Limit)]))
    ensures (forall n :: offers(n).Some?) ==> r.Success?
  {
    var remains: nat := Limit;
    var pos: nat := 0;
    chunks := [];
    while remains > 0
      invariant pos + remains == Limit && pos <= |data|
      invariant Concat(chunks) == data[..pos]
      invariant forall i :: 0 <= i < |chunks| ==> 1 <= |chunks[i]| <= BufferSize
      invariant forall n :: 0 <= n < |chunks| ==> offers(n).Some?
      decreases remains
    {
      var toRead := Min(remains, BufferSize);
      match offers(|chunks|)
      case None =>
        return Failure(IoError), chunks;
      case Some(offered) =>
        var read := Min(toRead, Min(|data| - pos, if offered == 0 then 1 else offered));
        if read == 0 {
          assert pos == |data|;
          break;
        }
        var chunk := data[pos..pos + read];
        assert data[..pos + read] == data[..pos] + chunk;
        assert (chunks + [chunk])[..|chunks|] == chunks;
        chunks := chunks + [chunk];
        pos := pos + read;
        remains := remains - read;
    }
    assert pos == Min(|data|, Limit);
    r := Success(Hex16(xxh(data[..pos])));
  }
}
