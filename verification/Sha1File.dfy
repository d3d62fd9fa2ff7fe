/**
 sha1_file of dyninstT/common/sha1.C (lines 287-317): a file read in chunks of 16384
 bytes, its digest in hexadecimal.
 */
module Sha1File {
  import opened Basics
  import opened Sha1Spec
  import opened Sha1Context

  const CHUNK: nat := 16384

  // A file that cannot be opened, or its bytes and the number of the read that reports an error.
  datatype File = Missing | Open(contents: seq<Byte>, badRead: nat)

  function HexDigit(n: nat): char
    requires n < 16
  {
    "0123456789abcdef"[n]
  }

  function HexByte(b: Byte): string { [HexDigit(b as nat / 16), HexDigit(b as nat % 16)] }

  // "%02x" for each byte
  function Hex(b: seq<Byte>): string {
    if b == [] then "" else HexByte(b[0]) + Hex(b[1..])
  }

  // The value of a hexadecimal digit as the C standard reads it.
  function DigitValue(c: char): nat {
    if '0' <= c <= '9' then (c - '0') as nat
    else if 'a' <= c <= 'f' then 10 + (c - 'a') as nat
    else 16
  }

  lemma DigitRead(n: nat)
    requires n < 16
    ensures DigitValue(HexDigit(n)) == n
  {
    if n < 8 {
      assert n in {0, 1, 2, 3, 4, 5, 6, 7};
    } else {
      assert n in {8, 9, 10, 11, 12, 13, 14, 15};
    }
  }

  /** Byte i is printed as characters 2i and 2i+1, which read in base 16 give it back. */
  lemma {:induction false} HexReads(b: seq<Byte>, i: nat)
    requires i < |b|
    ensures |Hex(b)| == 2 * |b|
    ensures 16 * DigitValue(Hex(b)[2 * i]) + DigitValue(Hex(b)[2 * i + 1]) == b[i] as nat
  {
    if i == 0 {
      DigitRead(b[0] as nat / 16);
      DigitRead(b[0] as nat % 16);
      if |b| > 1 { HexReads(b[1..], 0); }
    } else {
      HexReads(b[1..], i - 1);
    }
  }

  // Reads until the end of the file: one for each full chunk and a last, short one.
  function ReadsOf(n: nat): nat { n / CHUNK + 1 }

  // fread: up to a chunk of the bytes from pos on
  method Read(contents: seq<Byte>, pos: nat, buf: array<Byte>) returns (len: nat)
    requires pos <= |contents| && buf.Length == CHUNK
    modifies buf
    ensures len == (if |contents| - pos < CHUNK then |contents| - pos else CHUNK)
    ensures buf[..][..len] == contents[pos..pos + len]
  {
    len := if |contents| - pos < CHUNK then |contents| - pos else CHUNK;
    forall k | 0 <= k < len {
      buf[k] := contents[pos + k];
    }
  }

  /** The digest of the whole file, or nothing when it cannot be opened or one of its reads fails. */
  method HashFile(file: File) returns (r: Option<string>)
    ensures r == if file.Missing? || file.badRead < ReadsOf(|file.contents|) then None
                 else Some(Hex(Sha1(file.contents)))
  {
    if file.Missing? {
      return None;
    }
    var ok, digest := HashContents(file.contents, file.badRead);
    r := if ok then Some(Hex(digest)) else None;
  }

  method Feed(ctx: Context, ghost contents: seq<Byte>, ghost pos: nat, buf: array<Byte>, len: nat)
    requires ctx.Valid() && buf != ctx.buffer && len <= buf.Length == CHUNK && pos + len <= |contents|
    requires ctx.msg == contents[..pos] && buf[..][..len] == contents[pos..pos + len]
    modifies ctx, ctx.buffer, buf
    ensures ctx.Valid() && ctx.msg == contents[..pos + len]
  {
    assert contents[..pos + len] == contents[..pos] + contents[pos..pos + len];
    ctx.Update(buf, len);
  }

  method HashContents(contents: seq<Byte>, badRead: nat) returns (ok: bool, digest: seq<Byte>)
    ensures ok <==> ReadsOf(|contents|) <= badRead
    ensures ok ==> digest == Sha1(contents)
  {
    var buf := new Byte[CHUNK];
    var ctx := new Context();
    var pos, calls, eof := 0, 0, false;
    while !eof
      invariant ctx.Valid() && fresh(ctx) && fresh(ctx.buffer) && fresh(buf) && buf != ctx.buffer
      invariant pos <= |contents| && ctx.msg == contents[..pos] && calls <= badRead
      invariant !eof ==> pos == calls * CHUNK
      invariant eof ==> pos == |contents| && calls == ReadsOf(pos)
      decreases |contents| - pos, !eof
    {
      var len := Read(contents, pos, buf);
      if calls == badRead {
        return false, [];
      }
      Feed(ctx, contents, pos, buf, len);
      pos, calls, eof := pos + len, calls + 1, len < CHUNK;
    }
    assert contents[..pos] == contents;
    ctx.Final(buf);
    ok, digest := true, buf[..20];
  }
}
