/** Bytes of a page file: little-endian numbers, the header, and reads and writes at an offset. */
module PageBytes {
  import opened Prelude

  type Byte = n: int | 0 <= n < 256

  type File = seq<Byte>

  const HEADER_SIZE: nat := 33
  const MAGIC: seq<Byte> := [0x41, 0x4E, 0x54, 0x50, 0x47]
  const FORMAT: nat := 1

  // ---- Little-endian numbers ----------------------------------------------------------------------

  function Pow256(k: nat): nat { if k == 0 then 1 else 256 * Pow256(k - 1) }

  function ToLe(n: nat, k: nat): (s: seq<Byte>)
    ensures |s| == k
  {
    if k == 0 then [] else [n % 256] + ToLe(n / 256, k - 1)
  }

  function FromLe(s: seq<Byte>): nat {
    if s == [] then 0 else s[0] + 256 * FromLe(s[1..])
  }

  lemma {:induction false} LeRoundTrip(n: nat, k: nat)
    requires n < Pow256(k)
    ensures FromLe(ToLe(n, k)) == n
    decreases k
  {
    if k > 0 {
      LeRoundTrip(n / 256, k - 1);
      assert ToLe(n, k)[1..] == ToLe(n / 256, k - 1);
    }
  }

  /** The number bytes stand for when byte `i` counts 256^i times. */
  function Weighted(s: seq<Byte>): nat {
    if s == [] then 0 else Weighted(s[..|s| - 1]) + s[|s| - 1] * Pow256(|s| - 1)
  }

  lemma {:induction false} FromLeSnoc(s: seq<Byte>, b: Byte)
    ensures FromLe(s + [b]) == FromLe(s) + b * Pow256(|s|)
    decreases |s|
  {
    if s == [] {
      assert [b][1..] == [];
    } else {
      assert (s + [b])[1..] == s[1..] + [b];
      FromLeSnoc(s[1..], b);
      Carry(b, |s|);
    }
  }

  lemma Carry(b: nat, k: nat)
    requires k > 0
    ensures b * Pow256(k) == 256 * (b * Pow256(k - 1))
  {
  }

  /** The least significant byte comes first. */
  lemma {:induction false} LeastFirst(s: seq<Byte>)
    ensures FromLe(s) == Weighted(s)
    decreases |s|
  {
    if s != [] {
      LeastFirst(s[..|s| - 1]);
      assert s == s[..|s| - 1] + [s[|s| - 1]];
      FromLeSnoc(s[..|s| - 1], s[|s| - 1]);
    }
  }

  // ---- Reading and writing ------------------------------------------------------------------------

  function Zeros(n: nat): (s: seq<Byte>)
    ensures |s| == n && forall i :: 0 <= i < n ==> s[i] == 0
  {
    seq(n, _ => 0)
  }

  /** The first `n` bytes, a gap past the end reading as zeros. */
  function Front(f: File, n: nat): (g: File)
    ensures |g| == n
  {
    if n <= |f| then f[..n] else f + Zeros(n - |f|)
  }

  /** Writing nothing changes nothing; writing past the end fills the gap with zeros. */
  function WriteAt(f: File, offset: nat, bytes: seq<Byte>): File {
    if bytes == [] then f
    else Front(f, offset) + bytes + (if offset + |bytes| < |f| then f[offset + |bytes|..] else [])
  }

  function ReadAt(f: File, offset: nat, length: nat): Option<seq<Byte>> {
    if offset + length <= |f| then Some(f[offset..offset + length]) else None
  }

  /** A write at or after `n` leaves the first `n` bytes alone. */
  lemma WriteKeepsFront(f: File, offset: nat, bytes: seq<Byte>, n: nat)
    requires n <= offset && (n <= |f| || bytes != [])
    ensures |WriteAt(f, offset, bytes)| >= n && |WriteAt(f, offset, bytes)| >= |f|
    ensures WriteAt(f, offset, bytes)[..n] == Front(f, n)
  {
  }

  lemma WriteThenRead(f: File, offset: nat, bytes: seq<Byte>)
    requires bytes != []
    ensures ReadAt(WriteAt(f, offset, bytes), offset, |bytes|) == Some(bytes)
  {
  }

  // ---- The header ---------------------------------------------------------------------------------

  datatype Header = Header(indexOffset: nat, indexLength: nat, appendOffset: nat)

  datatype HeaderRead = NoHeader | BadHeader | Found(header: Header)

  function HeaderBytes(h: Header): (s: seq<Byte>)
    ensures |s| == HEADER_SIZE
  {
    MAGIC + ToLe(FORMAT, 4) + ToLe(h.indexOffset, 8) + ToLe(h.indexLength, 8) + ToLe(h.appendOffset, 8)
  }

  /** A short or foreign magic means no header; a wrong version or a truncated header is an error. */
  function ReadHeader(f: File): HeaderRead {
    if |f| < 5 || f[..5] != MAGIC then NoHeader
    else if |f| < 9 || FromLe(f[5..9]) != FORMAT then BadHeader
    else if |f| < HEADER_SIZE then BadHeader
    else Found(Header(FromLe(f[9..17]), FromLe(f[17..25]), FromLe(f[25..33])))
  }

  predicate Fits(h: Header) {
    h.indexOffset < Pow256(8) && h.indexLength < Pow256(8) && h.appendOffset < Pow256(8)
  }

  lemma HeaderRoundTrip(h: Header, rest: File)
    requires Fits(h)
    ensures ReadHeader(HeaderBytes(h) + rest) == Found(h)
  {
    var f := HeaderBytes(h) + rest;
    assert f[..5] == MAGIC;
    assert f[5..9] == ToLe(FORMAT, 4) && f[9..17] == ToLe(h.indexOffset, 8);
    assert f[17..25] == ToLe(h.indexLength, 8) && f[25..33] == ToLe(h.appendOffset, 8);
    assert Pow256(4) == 0x1_0000_0000;
    LeRoundTrip(FORMAT, 4);
    LeRoundTrip(h.indexOffset, 8);
    LeRoundTrip(h.indexLength, 8);
    LeRoundTrip(h.appendOffset, 8);
  }

  /** The layout of the header: the letters ANTPG, the version 1 in four bytes, then three numbers of eight bytes. */
  lemma HeaderLayout(h: Header)
    requires Fits(h)
    ensures var f := HeaderBytes(h);
      && |f| == 33 && f[..5] == ['A' as int, 'N' as int, 'T' as int, 'P' as int, 'G' as int] && Weighted(f[5..9]) == 1
      && Weighted(f[9..17]) == h.indexOffset && Weighted(f[17..25]) == h.indexLength && Weighted(f[25..33]) == h.appendOffset
  {
    var f := HeaderBytes(h);
    HeaderRoundTrip(h, []);
    assert f + [] == f;
    LeastFirst(f[5..9]);
    LeastFirst(f[9..17]);
    LeastFirst(f[17..25]);
    LeastFirst(f[25..33]);
  }

  lemma SameSlice(f: File, g: File, a: nat, b: nat)
    requires |f| >= HEADER_SIZE && |g| >= HEADER_SIZE && f[..HEADER_SIZE] == g[..HEADER_SIZE]
    requires a <= b <= HEADER_SIZE
    ensures f[a..b] == g[a..b]
  {
    forall i | a <= i < b ensures f[i] == g[i] {
      assert f[..HEADER_SIZE][i] == g[..HEADER_SIZE][i];
    }
  }

  /** Only the header bytes matter to reading the header. */
  lemma SameHeader(f: File, g: File)
    requires |f| >= HEADER_SIZE && |g| >= HEADER_SIZE && f[..HEADER_SIZE] == g[..HEADER_SIZE]
    ensures ReadHeader(f) == ReadHeader(g)
  {
    SameSlice(f, g, 0, 5);
    SameSlice(f, g, 5, 9);
    SameSlice(f, g, 9, 17);
    SameSlice(f, g, 17, 25);
    SameSlice(f, g, 25, 33);
  }
}
