/**
 * The header that every page of the file store carries in its own bytes
 * (stores/filestore/page.c): page number in bytes 4-7, changed flag in byte 8.
 */
module Pages {
  const PAGE_SIZE := 4096
  const NUM_OFS := 4
  const CHGFLAG_OFS := 8

  /** Numbers are C ints; they are stored low byte first. */
  const INT_LIMIT := 0x8000_0000

  type Byte = x: int | 0 <= x < 256
  type Page = p: seq<Byte> | |p| == PAGE_SIZE witness seq(PAGE_SIZE, _ => 0)

  /** A C int in the four bytes from o on. */
  function IntAt(p: Page, o: nat): nat
    requires o + 4 <= PAGE_SIZE
  {
    p[o] as int + 0x100 * p[o + 1] as int + 0x1_0000 * p[o + 2] as int + 0x100_0000 * p[o + 3] as int
  }

  function WithInt(p: Page, o: nat, n: nat): Page
    requires o + 4 <= PAGE_SIZE && n < INT_LIMIT
  {
    p[o := n % 0x100][o + 1 := n / 0x100 % 0x100][o + 2 := n / 0x1_0000 % 0x100][o + 3 := n / 0x100_0000]
  }

  function Number(p: Page): nat {
    IntAt(p, NUM_OFS)
  }

  function WithNumber(p: Page, n: nat): Page
    requires n < INT_LIMIT
  {
    WithInt(p, NUM_OFS, n)
  }

  function Flag(p: Page): Byte {
    p[CHGFLAG_OFS]
  }

  function WithFlag(p: Page, f: Byte): Page {
    p[CHGFLAG_OFS := f]
  }

  /** The page apart from its changed flag: what a client has stored in it. */
  function Body(p: Page): Page {
    WithFlag(p, 0)
  }

  /** tm_page_init. */
  function Blank(n: nat): Page
    requires n < INT_LIMIT
  {
    WithNumber(seq(PAGE_SIZE, i => if i < NUM_OFS then '_' as int else 0), n)
  }

  /** What is stored is read back, and no other byte changes. */
  lemma IntRead(p: Page, o: nat, n: nat)
    requires o + 4 <= PAGE_SIZE && n < INT_LIMIT
    ensures IntAt(WithInt(p, o, n), o) == n
    ensures forall k :: 0 <= k < PAGE_SIZE && !(o <= k < o + 4) ==> WithInt(p, o, n)[k] == p[k]
  {
    IntBytes(n);
    BytesPut(p, o, n % 0x100, n / 0x100 % 0x100, n / 0x1_0000 % 0x100, n / 0x100_0000);
  }

  lemma IntBytes(n: nat)
    requires n < INT_LIMIT
    ensures n == n % 0x100 + 0x100 * (n / 0x100 % 0x100) + 0x1_0000 * (n / 0x1_0000 % 0x100)
            + 0x100_0000 * (n / 0x100_0000)
    ensures n / 0x100_0000 < 0x100
  {
    var a, b, c := n / 0x100, n / 0x1_0000, n / 0x100_0000;
    assert b == a / 0x100;
    assert c == b / 0x100;
  }

  lemma BytesPut(p: Page, o: nat, a: Byte, b: Byte, c: Byte, d: Byte)
    requires o + 4 <= PAGE_SIZE
    ensures var q := p[o := a][o + 1 := b][o + 2 := c][o + 3 := d];
            && q[o] == a && q[o + 1] == b && q[o + 2] == c && q[o + 3] == d
            && forall k :: 0 <= k < PAGE_SIZE && !(o <= k < o + 4) ==> q[k] == p[k]
  {
  }

  lemma NumberRead(p: Page, n: nat)
    requires n < INT_LIMIT
    ensures Number(WithNumber(p, n)) == n && Flag(WithNumber(p, n)) == Flag(p)
  {
    IntRead(p, NUM_OFS, n);
  }

  lemma BlankIs(n: nat)
    requires 0 < n < INT_LIMIT
    ensures Number(Blank(n)) == n && Flag(Blank(n)) == 0 && Body(Blank(n)) == Blank(n)
  {
    NumberRead(seq(PAGE_SIZE, i => if i < NUM_OFS then '_' as int else 0), n);
  }

  /** The flag and the rest of the page do not touch each other. */
  lemma FlagApart(p: Page, f: Byte)
    ensures Number(WithFlag(p, f)) == Number(p) && Flag(WithFlag(p, f)) == f && Body(WithFlag(p, f)) == Body(p)
    ensures Flag(p) == 0 ==> Body(p) == p
  {
  }

  // --- writing bytes -----------------------------------------------------------------

  ghost predicate Agree(p: Page, q: Page, lo: nat, hi: nat) {
    forall k :: lo <= k < hi && k < PAGE_SIZE ==> p[k] == q[k]
  }

  function WithBytes(p: Page, o: nat, s: seq<Byte>): Page
    requires o + |s| <= PAGE_SIZE
  {
    p[..o] + s + p[o + |s|..]
  }

  lemma IntAgrees(p: Page, q: Page, o: nat)
    requires o + 4 <= PAGE_SIZE && Agree(p, q, o, o + 4)
    ensures IntAt(p, o) == IntAt(q, o)
  {
  }

  lemma IntKept(p: Page, o: nat, n: nat, o': nat)
    requires o + 4 <= PAGE_SIZE && o' + 4 <= PAGE_SIZE && n < INT_LIMIT
    requires o + 4 <= o' || o' + 4 <= o
    ensures IntAt(WithInt(p, o, n), o') == IntAt(p, o')
  {
    IntRead(p, o, n);
  }

  lemma BytesKept(p: Page, o: nat, s: seq<Byte>, o': nat)
    requires o + |s| <= PAGE_SIZE && o' + 4 <= PAGE_SIZE && o' + 4 <= o
    ensures IntAt(WithBytes(p, o, s), o') == IntAt(p, o')
    ensures WithBytes(p, o, s)[o..o + |s|] == s
  {
    IntAgrees(WithBytes(p, o, s), p, o');
  }

  lemma FlagKept(p: Page, o: nat)
    requires CHGFLAG_OFS < o && o + 4 <= PAGE_SIZE
    ensures IntAt(WithFlag(p, 1), o) == IntAt(p, o)
  {
    IntAgrees(WithFlag(p, 1), p, o);
  }

  /** memcpy of an int. */
  method PutInt(bytes: array<Byte>, o: nat, n: nat)
    requires bytes.Length == PAGE_SIZE && o + 4 <= PAGE_SIZE && n < INT_LIMIT
    modifies bytes
    ensures bytes[..] == WithInt(old(bytes[..]), o, n)
  {
    ghost var p := bytes[..];
    bytes[o] := n % 0x100;
    bytes[o + 1] := n / 0x100 % 0x100;
    bytes[o + 2] := n / 0x1_0000 % 0x100;
    bytes[o + 3] := n / 0x100_0000;
    assert bytes[..] == WithInt(p, o, n);
  }

  /** memcpy of bytes. */
  method PutBytes(bytes: array<Byte>, o: nat, s: seq<Byte>)
    requires bytes.Length == PAGE_SIZE && o + |s| <= PAGE_SIZE
    modifies bytes
    ensures bytes[..] == WithBytes(old(bytes[..]), o, s)
  {
    for i := 0 to |s|
      invariant forall k :: 0 <= k < PAGE_SIZE ==> bytes[k] == if o <= k < o + i then s[k - o] else old(bytes[k])
    {
      bytes[o + i] := s[i];
    }
    assert bytes[..] == WithBytes(old(bytes[..]), o, s);
  }

  /** gs_page_set_changedflag(page, 1). */
  method SetChanged(bytes: array<Byte>)
    requires bytes.Length == PAGE_SIZE
    modifies bytes
    ensures bytes[..] == WithFlag(old(bytes[..]), 1)
  {
    ghost var p: Page := bytes[..];
    bytes[CHGFLAG_OFS] := 1;
    assert bytes[..] == WithFlag(p, 1);
  }
}
