/**
 * Leaf and node pages of the B-tree as bytes (stores/filestore/btreepage.c:206-520): a
 * header with page type and number of entries, then the entries, shifted in place by
 * insertions.
 */
module BtreePages {
  import opened Basics
  import opened Pages

  const TYPE_OFS := 12
  const ENTRYNUM_OFS := 16
  const BTREE_HEADER_LEN := 20
  const BTREE_NODE := 0
  const BTREE_LEAF := 1

  /** Words after the header, and how many records and pointers they have room for. */
  const WORDS := 1019
  const LEAF_ROOM := 254
  const NODE_ROOM := 510

  /** LEAFPAGE_ORDER: two records are kept back for over-insertion. */
  const LEAF_ORDER := 252

  datatype Record = Record(key: nat, len: nat, pnum: nat, offset: nat)

  function Count(p: Page): nat {
    IntAt(p, ENTRYNUM_OFS)
  }

  function Kind(p: Page): nat {
    IntAt(p, TYPE_OFS)
  }

  function Word(p: Page, w: nat): nat
    requires w < WORDS
  {
    IntAt(p, BTREE_HEADER_LEN + 4 * w)
  }

  function Rec(p: Page, i: nat): Record
    requires i < LEAF_ROOM
  {
    Record(Word(p, 4 * i), Word(p, 4 * i + 1), Word(p, 4 * i + 2), Word(p, 4 * i + 3))
  }

  function Entries(p: Page): seq<Record>
    requires Count(p) <= LEAF_ROOM
  {
    seq(Count(p), i requires 0 <= i < Count(p) => Rec(p, i))
  }

  // --- words ---------------------------------------------------------------------

  /** n words copied from src to dst, header and other words unchanged. */
  ghost predicate Copied(p: Page, q: Page, dst: nat, src: nat, n: nat)
    requires dst + n <= WORDS && src + n <= WORDS
  {
    && Number(q) == Number(p) && Kind(q) == Kind(p) && Count(q) == Count(p)
    && forall w: nat {:trigger Word(q, w)} ::
      w < WORDS ==> Word(q, w) == if dst <= w < dst + n then Word(p, src + (w - dst)) else Word(p, w)
  }

  /** One word set. */
  ghost predicate Set(p: Page, q: Page, w: nat, n: nat)
    requires w < WORDS
  {
    && Number(q) == Number(p) && Kind(q) == Kind(p) && Count(q) == Count(p) && Word(q, w) == n
    && forall v: nat :: v < WORDS && v != w ==> Word(q, v) == Word(p, v)
  }

  lemma HeaderAgrees(p: Page, q: Page)
    requires Agree(p, q, CHGFLAG_OFS + 1, BTREE_HEADER_LEN) && Agree(p, q, 0, CHGFLAG_OFS)
    ensures Number(q) == Number(p) && Kind(q) == Kind(p) && Count(q) == Count(p)
  {
    IntAgrees(p, q, NUM_OFS);
    IntAgrees(p, q, TYPE_OFS);
    IntAgrees(p, q, ENTRYNUM_OFS);
  }

  lemma CopiedBy(p: Page, dst: nat, src: nat, n: nat)
    requires dst + n <= WORDS && src + n <= WORDS
    ensures var from := BTREE_HEADER_LEN + 4 * src;
            Copied(p, WithBytes(p, BTREE_HEADER_LEN + 4 * dst, p[from..from + 4 * n]), dst, src, n)
  {
    var from, to := BTREE_HEADER_LEN + 4 * src, BTREE_HEADER_LEN + 4 * dst;
    var q := WithBytes(p, to, p[from..from + 4 * n]);
    HeaderAgrees(p, q);
    forall w: nat | w < WORDS
      ensures Word(q, w) == if dst <= w < dst + n then Word(p, src + (w - dst)) else Word(p, w)
    {
      var o := BTREE_HEADER_LEN + 4 * w;
      if dst <= w < dst + n {
        var b := from + 4 * (w - dst);
        assert q[o] == p[b] && q[o + 1] == p[b + 1] && q[o + 2] == p[b + 2] && q[o + 3] == p[b + 3];
      } else {
        assert q[o] == p[o] && q[o + 1] == p[o + 1] && q[o + 2] == p[o + 2] && q[o + 3] == p[o + 3];
      }
    }
  }

  lemma SetBy(p: Page, w: nat, n: nat)
    requires w < WORDS && n < INT_LIMIT
    ensures Set(p, WithInt(p, BTREE_HEADER_LEN + 4 * w, n), w, n)
  {
    var o := BTREE_HEADER_LEN + 4 * w;
    var q := WithInt(p, o, n);
    IntRead(p, o, n);
    hide WithInt;
    HeaderAgrees(p, q);
    hide IntAt;
    forall v: nat | v < WORDS && v != w ensures Word(q, v) == Word(p, v) {
      IntAgrees(p, q, BTREE_HEADER_LEN + 4 * v);
    }
  }

  /** gs_btreepage_set_number_of_entries. */
  function WithCount(p: Page, n: nat): Page
    requires n < INT_LIMIT
  {
    WithFlag(WithInt(p, ENTRYNUM_OFS, n), 1)
  }

  lemma CountSet(p: Page, n: nat)
    requires n < INT_LIMIT
    ensures var q := WithCount(p, n);
            && Number(q) == Number(p) && Kind(q) == Kind(p) && Count(q) == n
            && forall v: nat :: v < WORDS ==> Word(q, v) == Word(p, v)
  {
    var q := WithCount(p, n);
    IntRead(p, ENTRYNUM_OFS, n);
    FlagKept(WithInt(p, ENTRYNUM_OFS, n), ENTRYNUM_OFS);
    hide WithInt;
    IntAgrees(p, q, NUM_OFS);
    IntAgrees(p, q, TYPE_OFS);
    hide IntAt;
    forall v: nat | v < WORDS ensures Word(q, v) == Word(p, v) {
      IntAgrees(p, q, BTREE_HEADER_LEN + 4 * v);
    }
  }

  method CopyWords(bytes: array<Byte>, dst: nat, src: nat, n: nat)
    requires bytes.Length == PAGE_SIZE && dst + n <= WORDS && src + n <= WORDS
    modifies bytes
    ensures Copied(old(bytes[..]), bytes[..], dst, src, n)
  {
    hide Copied, WithBytes;
    CopiedBy(bytes[..], dst, src, n);
    var from := BTREE_HEADER_LEN + 4 * src;
    PutBytes(bytes, BTREE_HEADER_LEN + 4 * dst, bytes[..][from..from + 4 * n]);
  }

  method PutWord(bytes: array<Byte>, w: nat, n: nat)
    requires bytes.Length == PAGE_SIZE && w < WORDS && n < INT_LIMIT
    modifies bytes
    ensures Set(old(bytes[..]), bytes[..], w, n)
  {
    hide Set, WithInt;
    SetBy(bytes[..], w, n);
    PutInt(bytes, BTREE_HEADER_LEN + 4 * w, n);
  }

  method PutCount(bytes: array<Byte>, n: nat)
    requires bytes.Length == PAGE_SIZE && n < INT_LIMIT
    modifies bytes
    ensures bytes[..] == WithCount(old(bytes[..]), n)
  {
    hide WithInt, WithFlag;
    PutInt(bytes, ENTRYNUM_OFS, n);
    SetChanged(bytes);
  }

  // --- leaves ------------------------------------------------------------------------

  ghost predicate KeysIncrease(es: seq<Record>) {
    forall i, j :: 0 <= i < j < |es| ==> es[i].key < es[j].key
  }

  /** Where the scan from the right stops: after the last smaller key. */
  ghost predicate Place(es: seq<Record>, pos: nat, key: nat) {
    && pos <= |es| && (pos > 0 ==> es[pos - 1].key < key)
    && forall j :: pos <= j < |es| ==> es[j].key >= key
  }

  /** Insertion of a new key keeps the keys in order. */
  lemma PlacedInOrder(es: seq<Record>, pos: nat, r: Record)
    requires KeysIncrease(es) && Place(es, pos, r.key) && forall e :: e in es ==> e.key != r.key
    ensures KeysIncrease(es[..pos] + [r] + es[pos..])
  {
    var all := es[..pos] + [r] + es[pos..];
    forall j | pos <= j < |es| ensures es[j].key > r.key { assert es[j] in es; }
    forall i, j | 0 <= i < j < |all| ensures all[i].key < all[j].key {
      assert all[i] == if i < pos then es[i] else if i == pos then r else es[i - 1];
      assert all[j] == if j < pos then es[j] else if j == pos then r else es[j - 1];
    }
  }

  /** The records of q are those of p with a gap at pos: whatever was from pos on is one place further. */
  ghost predicate Gap(p: Page, q: Page, pos: nat, n: nat) {
    && n < LEAF_ROOM && Number(q) == Number(p) && Kind(q) == Kind(p) && Count(q) == Count(p)
    && (forall j: nat :: j < pos && j < LEAF_ROOM ==> Rec(q, j) == Rec(p, j))
    && (forall j: nat :: pos < j <= n ==> Rec(q, j) == Rec(p, j - 1))
  }

  lemma GapMoves(p: Page, q: Page, q': Page, pos: nat, n: nat)
    requires 0 < pos <= n && Gap(p, q, pos, n) && Copied(q, q', 4 * pos, 4 * (pos - 1), 4)
    ensures Gap(p, q', pos - 1, n)
  {
    forall j: nat | j < LEAF_ROOM ensures Rec(q', j) == if j == pos then Rec(q, pos - 1) else Rec(q, j) {
      MovedRecord(q, q', pos, j);
    }
    hide Rec, Number, Kind, Count, Copied;
  }

  lemma MovedRecord(q: Page, q': Page, pos: nat, j: nat)
    requires 0 < pos < LEAF_ROOM && j < LEAF_ROOM && Copied(q, q', 4 * pos, 4 * (pos - 1), 4)
    ensures Rec(q', j) == if j == pos then Rec(q, pos - 1) else Rec(q, j)
  {
    var w, v := 4 * j, if j == pos then 4 * (pos - 1) else 4 * j;
    assert Word(q', w) == Word(q, v) && Word(q', w + 1) == Word(q, v + 1);
    assert Word(q', w + 2) == Word(q, v + 2) && Word(q', w + 3) == Word(q, v + 3);
  }

  lemma SetRecord(q: Page, q1: Page, q2: Page, q3: Page, q4: Page, pos: nat, r: Record, j: nat)
    requires pos < LEAF_ROOM && j < LEAF_ROOM
    requires Set(q, q1, 4 * pos, r.key) && Set(q1, q2, 4 * pos + 1, r.len) && Set(q2, q3, 4 * pos + 2, r.pnum)
             && Set(q3, q4, 4 * pos + 3, r.offset)
    ensures Rec(q4, j) == if j == pos then r else Rec(q, j)
  {
    hide Word;
    var w := 4 * j;
    if j != pos {
      assert Word(q4, w) == Word(q, w) && Word(q4, w + 1) == Word(q, w + 1);
      assert Word(q4, w + 2) == Word(q, w + 2) && Word(q4, w + 3) == Word(q, w + 3);
    }
  }

  lemma GapFilled(p: Page, q: Page, q1: Page, q2: Page, q3: Page, q4: Page, pos: nat, r: Record)
    requires pos <= Count(p) < LEAF_ROOM && Gap(p, q, pos, Count(p))
    requires Set(q, q1, 4 * pos, r.key) && Set(q1, q2, 4 * pos + 1, r.len) && Set(q2, q3, 4 * pos + 2, r.pnum)
             && Set(q3, q4, 4 * pos + 3, r.offset)
    ensures Number(q4) == Number(p) && Kind(q4) == Kind(p)
    ensures var z := WithCount(q4, Count(p) + 1);
            && Number(z) == Number(p) && Kind(z) == Kind(p) && Count(z) == Count(p) + 1
            && Entries(z) == Entries(p)[..pos] + [r] + Entries(p)[pos..]
  {
    hide Number, Kind, Count, WithCount, Word;
    var n := Count(p);
    CountSet(q4, n + 1);
    var z := WithCount(q4, n + 1);
    GapHeader(p, q, q1, q2, q3, q4, pos, r);
    hide Set;
    forall j: nat | j < LEAF_ROOM ensures Rec(z, j) == if j == pos then r else Rec(q, j) {
      SetRecord(q, q1, q2, q3, q4, pos, r, j);
      SameRec(q4, z, j);
    }
    hide Rec;
    FilledEntries(p, q, z, pos, r);
  }

  lemma GapHeader(p: Page, q: Page, q1: Page, q2: Page, q3: Page, q4: Page, pos: nat, r: Record)
    requires pos < LEAF_ROOM && Number(q) == Number(p) && Kind(q) == Kind(p)
    requires Set(q, q1, 4 * pos, r.key) && Set(q1, q2, 4 * pos + 1, r.len) && Set(q2, q3, 4 * pos + 2, r.pnum)
             && Set(q3, q4, 4 * pos + 3, r.offset)
    ensures Number(q4) == Number(p) && Kind(q4) == Kind(p)
  {
    hide Number, Kind, Count, Word;
  }

  lemma SameRec(p: Page, q: Page, j: nat)
    requires j < LEAF_ROOM && forall v: nat :: v < WORDS ==> Word(q, v) == Word(p, v)
    ensures Rec(q, j) == Rec(p, j)
  {
    hide Word;
  }

  lemma FilledEntries(p: Page, q: Page, z: Page, pos: nat, r: Record)
    requires pos <= Count(p) < LEAF_ROOM && Gap(p, q, pos, Count(p)) && Count(z) == Count(p) + 1
    requires forall j: nat :: j < LEAF_ROOM ==> Rec(z, j) == if j == pos then r else Rec(q, j)
    ensures Entries(z) == Entries(p)[..pos] + [r] + Entries(p)[pos..]
  {
    hide Number, Kind, Count, Rec;
    var n, es := Count(p), Entries(p)[..pos] + [r] + Entries(p)[pos..];
    forall j: nat | j <= n ensures Rec(z, j) == es[j] {
      assert es[j] == if j < pos then Entries(p)[j] else if j == pos then r else Entries(p)[j - 1];
    }
    assert Entries(z) == es;
  }

  class BtreeLeaf {
    const bytes: array<Byte>

    /** gs_btreeleafpage_init. */
    constructor (n: nat)
      requires 0 < n < INT_LIMIT
      ensures Valid() && fresh(bytes) && Number(bytes[..]) == n && View() == []
      ensures forall i: nat :: i < LEAF_ROOM ==> Rec(bytes[..], i) == Record(0, 0, 0, 0)
    {
      var blank := Blank(n);
      bytes := new Byte[PAGE_SIZE](i requires 0 <= i < PAGE_SIZE => blank[i]);
      new;
      assert bytes[..] == blank;
      BlankLeaf(n);
      PutInt(bytes, TYPE_OFS, BTREE_LEAF);
      SetChanged(bytes);
    }

    ghost predicate Valid()
      reads bytes
    {
      bytes.Length == PAGE_SIZE && Kind(bytes[..]) == BTREE_LEAF && Count(bytes[..]) <= LEAF_ROOM
    }

    ghost function View(): seq<Record>
      requires Valid()
      reads bytes
    {
      Entries(bytes[..])
    }

    /** gs_btreeleafpage_find_entry: the first record with the key. */
    method FindEntry(key: nat) returns (r: Option<nat>)
      requires Valid()
      ensures r.Some? ==> r.value < |View()| && View()[r.value].key == key && forall j :: 0 <= j < r.value ==>
                View()[j].key != key
      ensures r == None ==> forall e :: e in View() ==> e.key != key
    {
      hide Word;
      var q := Count(bytes[..]);
      for i := 0 to q
        invariant forall j :: 0 <= j < i ==> View()[j].key != key
      {
        if Word(bytes[..], 4 * i) == key {
          return Some(i);
        }
      }
      return None;
    }

    /** gs_btreeleafpage_create_entry: shifts records from the right until the place of the key is free. */
    method CreateEntry(key: nat, assertionId: nat) returns (ghost pos: nat)
      requires Valid() && |View()| < LEAF_ROOM && key < INT_LIMIT && assertionId < INT_LIMIT
      modifies bytes
      ensures Valid() && Number(bytes[..]) == Number(old(bytes[..])) && Place(old(View()), pos, key)
      ensures View() == old(View())[..pos] + [Record(key, 1, assertionId, 0)] + old(View())[pos..]
    {
      hide Word, Copied, Set, Gap, Number, Kind, Count, WithCount;
      ghost var p: Page := bytes[..];
      var q := Count(bytes[..]);
      var i := q;
      NoGap(p, q);
      while i > 0
        invariant i <= q && Gap(p, bytes[..], i, q)
        invariant forall j :: i <= j < q ==> Entries(p)[j].key >= key
      {
        GapBefore(p, bytes[..], i, q);
        var k := Word(bytes[..], 4 * (i - 1));
        assert k == Entries(p)[i - 1].key;
        if k < key {
          break;
        }
        ghost var before: Page := bytes[..];
        CopyWords(bytes, 4 * i, 4 * (i - 1), 4);
        GapMoves(p, before, bytes[..], i, q);
        i := i - 1;
      }
      pos := i;
      ghost var p0: Page := bytes[..];
      PutWord(bytes, 4 * i, key);
      ghost var p1: Page := bytes[..];
      PutWord(bytes, 4 * i + 1, 1);
      ghost var p2: Page := bytes[..];
      PutWord(bytes, 4 * i + 2, assertionId);
      ghost var p3: Page := bytes[..];
      PutWord(bytes, 4 * i + 3, 0);
      GapFilled(p, p0, p1, p2, p3, bytes[..], i, Record(key, 1, assertionId, 0));
      PutCount(bytes, q + 1);
    }

    /** gs_btreeleafpage_update_entry: a longer chain for a record found before. */
    method UpdateEntry(at: nat, r: Record)
      requires Valid() && at < |View()| && View()[at].key == r.key && 1 < r.len < INT_LIMIT && r.pnum < INT_LIMIT
               && r.offset < INT_LIMIT
      modifies bytes
      ensures Valid() && Number(bytes[..]) == Number(old(bytes[..])) && View() == old(View())[at := r]
    {
      hide Word, Set, Number, Kind, WithFlag;
      ghost var p0: Page := bytes[..];
      PutWord(bytes, 4 * at + 1, r.len);
      ghost var p1: Page := bytes[..];
      PutWord(bytes, 4 * at + 2, r.pnum);
      ghost var p2: Page := bytes[..];
      PutWord(bytes, 4 * at + 3, r.offset);
      Updated(p0, p1, p2, bytes[..], at, r);
      SetChanged(bytes);
    }

    /**
     * gs_btreeleafpage_copy_remaining into this page, as it stands: the records from start
     * on, counted one too many. start is 127 (the assertion at 503).
     */
    method CopyRemaining(from: BtreeLeaf, start: nat) returns (key: nat)
      requires Valid() && from.Valid() && bytes != from.bytes && start == (LEAF_ORDER + 1) / 2 + 1
      modifies bytes
      ensures Valid() && Number(bytes[..]) == Number(old(bytes[..]))
      ensures Count(bytes[..]) == LEAF_ORDER + 1 - start + 2
      ensures forall j: nat :: j <= LEAF_ORDER + 1 - start ==> Rec(bytes[..], j) == Rec(from.bytes[..], start - 1 + j)
      ensures Rec(bytes[..], LEAF_ORDER + 1 - start + 1) == Rec(old(bytes[..]), LEAF_ORDER + 1 - start + 1)
      ensures key == Rec(from.bytes[..], start - 2).key
    {
      hide Word, Number, Kind, Count, WithCount, WithBytes;
      ghost var p: Page := bytes[..];
      key := Word(from.bytes[..], 4 * (start - 2));
      var j := 0;
      for i := start - 1 to LEAF_ORDER + 1
        invariant j == i - (start - 1) && Number(bytes[..]) == Number(p) && Kind(bytes[..]) == Kind(p)
        invariant forall k: nat :: k < j ==> Rec(bytes[..], k) == Rec(from.bytes[..], start - 1 + k)
        invariant forall k: nat :: j <= k < LEAF_ROOM ==> Rec(bytes[..], k) == Rec(p, k)
      {
        ghost var before: Page := bytes[..];
        var o := BTREE_HEADER_LEN + 16 * i;
        RecordTaken(before, from.bytes[..], j, i);
        PutBytes(bytes, BTREE_HEADER_LEN + 16 * j, from.bytes[..][o..o + 16]);
        j := j + 1;
      }
      CountSet(bytes[..], j + 1);
      ghost var last: Page := bytes[..];
      PutCount(bytes, j + 1);
      assert forall k: nat :: k < LEAF_ROOM ==> Rec(bytes[..], k) == Rec(last, k);
    }
  }

  lemma BlankLeaf(n: nat)
    requires 0 < n < INT_LIMIT
    ensures var q := WithFlag(WithInt(Blank(n), TYPE_OFS, BTREE_LEAF), 1);
            && Number(q) == n && Kind(q) == BTREE_LEAF && Count(q) == 0
            && forall i: nat :: i < LEAF_ROOM ==> Rec(q, i) == Record(0, 0, 0, 0)
  {
    var p := Blank(n);
    var p1 := WithInt(p, TYPE_OFS, BTREE_LEAF);
    var q := WithFlag(p1, 1);
    BlankIs(n);
    IntRead(p, TYPE_OFS, BTREE_LEAF);
    FlagKept(p1, TYPE_OFS);
    IntAgrees(p, q, NUM_OFS);
    assert forall k :: ENTRYNUM_OFS <= k < PAGE_SIZE ==> q[k] == 0;
    forall w: nat | w < WORDS ensures Word(q, w) == 0 { }
  }

  lemma NoGap(p: Page, n: nat)
    requires n == Count(p) < LEAF_ROOM
    ensures Gap(p, p, n, n)
  {
  }

  lemma GapBefore(p: Page, q: Page, pos: nat, n: nat)
    requires Gap(p, q, pos, n) && n == Count(p) && 0 < pos <= n
    ensures Rec(q, pos - 1) == Rec(p, pos - 1) == Entries(p)[pos - 1]
  {
  }

  lemma Updated(p0: Page, p1: Page, p2: Page, p3: Page, at: nat, r: Record)
    requires at < Count(p0) <= LEAF_ROOM && Rec(p0, at).key == r.key
    requires Set(p0, p1, 4 * at + 1, r.len) && Set(p1, p2, 4 * at + 2, r.pnum) && Set(p2, p3, 4 * at + 3, r.offset)
    ensures var z := WithFlag(p3, 1);
            && Number(z) == Number(p0) && Kind(z) == Kind(p0) && Count(z) == Count(p0)
            && Entries(z) == Entries(p0)[at := r]
  {
    var z := WithFlag(p3, 1);
    HeaderAgrees(p3, z);
    forall w: nat | w < WORDS ensures Word(z, w) == Word(p3, w) { FlagKept(p3, BTREE_HEADER_LEN + 4 * w); }
    hide Number, Word, Kind, Count, WithFlag;
    forall j: nat | j < Count(p0) ensures Rec(z, j) == if j == at then r else Rec(p0, j) { }
  }

  lemma TakenWord(p: Page, from: Page, t: nat, o: nat, c: nat)
    requires t + 16 <= PAGE_SIZE && o + 16 <= PAGE_SIZE && c + 4 <= 16
    ensures IntAt(WithBytes(p, t, from[o..o + 16]), t + c) == IntAt(from, o + c)
  {
    var q, b, a := WithBytes(p, t, from[o..o + 16]), o + c, t + c;
    assert q[a] == from[b] && q[a + 1] == from[b + 1] && q[a + 2] == from[b + 2] && q[a + 3] == from[b + 3];
  }

  /** One record copied over from another page. */
  lemma RecordTaken(p: Page, from: Page, j: nat, i: nat)
    requires j < LEAF_ROOM && i < LEAF_ROOM
    ensures var o := BTREE_HEADER_LEN + 16 * i;
            var q := WithBytes(p, BTREE_HEADER_LEN + 16 * j, from[o..o + 16]);
            && Number(q) == Number(p) && Kind(q) == Kind(p) && Rec(q, j) == Rec(from, i)
            && forall k: nat :: k < LEAF_ROOM && k != j ==> Rec(q, k) == Rec(p, k)
  {
    var o, t := BTREE_HEADER_LEN + 16 * i, BTREE_HEADER_LEN + 16 * j;
    var q := WithBytes(p, t, from[o..o + 16]);
    assert Agree(p, q, 0, t) && Agree(p, q, t + 16, PAGE_SIZE);
    hide WithBytes, IntAt, Rec;
    HeaderAgrees(p, q);
    TakenRecord(p, from, j, i);
    forall k: nat | k < LEAF_ROOM && k != j ensures Rec(q, k) == Rec(p, k) {
      RecordAgrees(p, q, k);
    }
  }

  lemma RecordAgrees(p: Page, q: Page, k: nat)
    requires k < LEAF_ROOM && Agree(p, q, BTREE_HEADER_LEN + 16 * k, BTREE_HEADER_LEN + 16 * k + 16)
    ensures Rec(q, k) == Rec(p, k)
  {
    var b := BTREE_HEADER_LEN + 16 * k;
    hide IntAt;
    IntAgrees(p, q, b);
    IntAgrees(p, q, b + 4);
    IntAgrees(p, q, b + 8);
    IntAgrees(p, q, b + 12);
  }

  lemma TakenRecord(p: Page, from: Page, j: nat, i: nat)
    requires j < LEAF_ROOM && i < LEAF_ROOM
    ensures var o := BTREE_HEADER_LEN + 16 * i;
            Rec(WithBytes(p, BTREE_HEADER_LEN + 16 * j, from[o..o + 16]), j) == Rec(from, i)
  {
    var o, t := BTREE_HEADER_LEN + 16 * i, BTREE_HEADER_LEN + 16 * j;
    hide WithBytes, IntAt;
    TakenWord(p, from, t, o, 0);
    TakenWord(p, from, t, o, 4);
    TakenWord(p, from, t, o, 8);
    TakenWord(p, from, t, o, 12);
  }

  /**
   * The split goes wrong on every input: a fresh page gets the upper records and, because
   * of the count, an empty record behind them, so its keys are not in order.
   */
  lemma SplitNeverOrdered(before: Page, to: Page, from: Page, start: nat)
    requires start == (LEAF_ORDER + 1) / 2 + 1 && Count(from) == LEAF_ORDER + 1
    requires forall i: nat :: i < LEAF_ROOM ==> Rec(before, i) == Record(0, 0, 0, 0)
    requires Count(to) == LEAF_ORDER + 1 - start + 2
    requires forall j: nat :: j <= LEAF_ORDER + 1 - start ==> Rec(to, j) == Rec(from, start - 1 + j)
    requires Rec(to, LEAF_ORDER + 1 - start + 1) == Rec(before, LEAF_ORDER + 1 - start + 1)
    ensures Entries(to) == Entries(from)[start - 1..] + [Record(0, 0, 0, 0)]
    ensures !KeysIncrease(Entries(to))
  {
    hide Rec, Count;
    var es := Entries(to);
    assert es == Entries(from)[start - 1..] + [Record(0, 0, 0, 0)];
    assert es[|es| - 1].key == 0;
    assert !(es[|es| - 2].key < es[|es| - 1].key);
  }

  // --- nodes -------------------------------------------------------------------------

  function Ptr(p: Page, i: nat): nat
    requires i < NODE_ROOM
  {
    Word(p, 2 * i)
  }

  /** The key between pointers i and i + 1. */
  function KeyAt(p: Page, i: nat): nat
    requires i < NODE_ROOM - 1
  {
    Word(p, 2 * i + 1)
  }

  function Ptrs(p: Page): seq<nat>
    requires Count(p) <= NODE_ROOM
  {
    seq(Count(p), i requires 0 <= i < Count(p) => Ptr(p, i))
  }

  function Keys(p: Page): seq<nat>
    requires 1 <= Count(p) <= NODE_ROOM
  {
    seq(Count(p) - 1, i requires 0 <= i < Count(p) - 1 => KeyAt(p, i))
  }

  ghost predicate Increases(ks: seq<nat>) {
    forall i, j :: 0 <= i < j < |ks| ==> ks[i] < ks[j]
  }

  /** The last pointer to page n. */
  ghost predicate LastPtr(ps: seq<nat>, n: nat, at: nat) {
    at < |ps| && ps[at] == n && forall j :: at < j < |ps| ==> ps[j] != n
  }

  /** A key between its neighbours keeps the keys in order. */
  lemma KeyInOrder(ks: seq<nat>, at: nat, key: nat)
    requires Increases(ks) && at <= |ks| && (at > 0 ==> ks[at - 1] < key) && (at < |ks| ==> key < ks[at])
    ensures Increases(ks[..at] + [key] + ks[at..])
  {
    var all := ks[..at] + [key] + ks[at..];
    forall i, j | 0 <= i < j < |all| ensures all[i] < all[j] {
      assert all[i] == if i < at then ks[i] else if i == at then key else ks[i - 1];
      assert all[j] == if j < at then ks[j] else if j == at then key else ks[j - 1];
    }
  }

  /** Everything right of pointer at has moved one place: pointers and the keys in front of them. */
  ghost predicate Shifted(p: Page, q: Page, at: nat, n: nat) {
    && at < n < NODE_ROOM && Number(q) == Number(p) && Kind(q) == Kind(p) && Count(q) == Count(p) == n
    && (forall j: nat :: j <= at ==> Ptr(q, j) == Ptr(p, j))
    && (forall j: nat :: at < j < n ==> Ptr(q, j + 1) == Ptr(p, j))
    && (forall j: nat :: j < at ==> KeyAt(q, j) == KeyAt(p, j))
    && (forall j: nat :: at < j < n ==> KeyAt(q, j) == KeyAt(p, j - 1))
    && (at < n - 1 ==> KeyAt(q, at) == KeyAt(p, at))
  }

  lemma ShiftMoves(p: Page, q: Page, q': Page, at: nat, n: nat)
    requires 0 < at && Shifted(p, q, at, n) && Copied(q, q', 2 * at + 1, 2 * at - 1, 2)
    ensures Shifted(p, q', at - 1, n)
  {
    hide Word;
    forall j: nat | j < NODE_ROOM ensures Ptr(q', j) == if j == at + 1 then Ptr(q, at) else Ptr(q, j) {
      assert Word(q', 2 * j) == Word(q, if j == at + 1 then 2 * at else 2 * j);
    }
    forall j: nat | j < NODE_ROOM - 1 ensures KeyAt(q', j) == if j == at then KeyAt(q, at - 1) else KeyAt(q, j) {
      assert Word(q', 2 * j + 1) == Word(q, if j == at then 2 * (at - 1) + 1 else 2 * j + 1);
    }
    hide Ptr, KeyAt, Number, Kind, Count, Copied;
  }

  lemma SetNode(q: Page, q1: Page, q2: Page, at: nat, key: nat, pnum: nat, j: nat)
    requires at < NODE_ROOM - 1 && Set(q, q1, 2 * at + 1, key) && Set(q1, q2, 2 * at + 2, pnum)
    ensures j < NODE_ROOM ==> Ptr(q2, j) == if j == at + 1 then pnum else Ptr(q, j)
    ensures j < NODE_ROOM - 1 ==> KeyAt(q2, j) == if j == at then key else KeyAt(q, j)
  {
    hide Word;
    if j < NODE_ROOM && j != at + 1 { assert Word(q2, 2 * j) == Word(q, 2 * j); }
    if j < NODE_ROOM - 1 && j != at { assert Word(q2, 2 * j + 1) == Word(q, 2 * j + 1); }
  }

  lemma ShiftFilled(p: Page, q: Page, q1: Page, q2: Page, at: nat, key: nat, pnum: nat)
    requires Shifted(p, q, at, Count(p)) && Set(q, q1, 2 * at + 1, key) && Set(q1, q2, 2 * at + 2, pnum)
    ensures var z, ps, ks := WithCount(q2, Count(p) + 1), Ptrs(p), Keys(p);
            && Number(z) == Number(p) && Kind(z) == Kind(p) && Count(z) == Count(p) + 1
            && Ptrs(z) == ps[..at + 1] + [pnum] + ps[at + 1..] && Keys(z) == ks[..at] + [key] + ks[at..]
  {
    hide Number, Kind, Count, WithCount, Word;
    var n := Count(p);
    CountSet(q2, n + 1);
    var z := WithCount(q2, n + 1);
    hide Set;
    forall j: nat ensures j < NODE_ROOM ==> Ptr(z, j) == if j == at + 1 then pnum else Ptr(q, j) {
      if j < NODE_ROOM {
        SetNode(q, q1, q2, at, key, pnum, j);
        SameNode(q2, z, j);
      }
    }
    forall j: nat ensures j < NODE_ROOM - 1 ==> KeyAt(z, j) == if j == at then key else KeyAt(q, j) {
      if j < NODE_ROOM - 1 {
        SetNode(q, q1, q2, at, key, pnum, j);
        SameNode(q2, z, j);
      }
    }
    ShiftHeader(p, q, q1, q2, at, key, pnum);
    hide Ptr, KeyAt;
    FilledPtrs(p, q, z, at, pnum);
    FilledKeys(p, q, z, at, key);
  }

  lemma ShiftHeader(p: Page, q: Page, q1: Page, q2: Page, at: nat, key: nat, pnum: nat)
    requires at < NODE_ROOM - 1 && Number(q) == Number(p) && Kind(q) == Kind(p)
    requires Set(q, q1, 2 * at + 1, key) && Set(q1, q2, 2 * at + 2, pnum)
    ensures Number(q2) == Number(p) && Kind(q2) == Kind(p)
  {
    hide Number, Kind, Count, Word;
  }

  lemma SameNode(p: Page, q: Page, j: nat)
    requires j < NODE_ROOM && forall v: nat :: v < WORDS ==> Word(q, v) == Word(p, v)
    ensures Ptr(q, j) == Ptr(p, j)
    ensures j < NODE_ROOM - 1 ==> KeyAt(q, j) == KeyAt(p, j)
  {
    hide Word;
  }

  lemma FilledPtrs(p: Page, q: Page, z: Page, at: nat, pnum: nat)
    requires Shifted(p, q, at, Count(p)) && Count(z) == Count(p) + 1
    requires forall j: nat :: j < NODE_ROOM ==> Ptr(z, j) == if j == at + 1 then pnum else Ptr(q, j)
    ensures Ptrs(z) == Ptrs(p)[..at + 1] + [pnum] + Ptrs(p)[at + 1..]
  {
    hide Ptr, KeyAt, Number, Kind, Count;
    var ps := Ptrs(p)[..at + 1] + [pnum] + Ptrs(p)[at + 1..];
    forall j: nat | j <= Count(p) ensures Ptr(z, j) == ps[j] {
      assert ps[j] == if j <= at then Ptrs(p)[j] else if j == at + 1 then pnum else Ptrs(p)[j - 1];
      if j > at + 1 { assert Ptr(q, (j - 1) + 1) == Ptr(p, j - 1); }
    }
    assert Ptrs(z) == ps;
  }

  lemma FilledKeys(p: Page, q: Page, z: Page, at: nat, key: nat)
    requires Shifted(p, q, at, Count(p)) && Count(z) == Count(p) + 1
    requires forall j: nat :: j < NODE_ROOM - 1 ==> KeyAt(z, j) == if j == at then key else KeyAt(q, j)
    ensures Keys(z) == Keys(p)[..at] + [key] + Keys(p)[at..]
  {
    hide Ptr, KeyAt, Number, Kind, Count;
    var ks := Keys(p)[..at] + [key] + Keys(p)[at..];
    forall j: nat | j < Count(p) ensures KeyAt(z, j) == ks[j] {
      assert ks[j] == if j < at then Keys(p)[j] else if j == at then key else Keys(p)[j - 1];
    }
    assert Keys(z) == ks;
  }

  lemma NotShifted(p: Page)
    requires 2 <= Count(p) < NODE_ROOM
    ensures Shifted(p, p, Count(p) - 1, Count(p))
  {
  }

  lemma ShiftedPtr(p: Page, q: Page, at: nat)
    requires Shifted(p, q, at, Count(p))
    ensures Ptr(q, at) == Ptrs(p)[at] && (at < Count(p) - 1 ==> KeyAt(q, at) == Keys(p)[at])
  {
  }

  class BtreeNode {
    const bytes: array<Byte>

    ghost predicate Valid()
      reads bytes
    {
      bytes.Length == PAGE_SIZE && Kind(bytes[..]) == BTREE_NODE && 2 <= Count(bytes[..]) <= NODE_ROOM
    }

    ghost function Children(): seq<nat>
      requires Valid()
      reads bytes
    {
      Ptrs(bytes[..])
    }

    ghost function Separators(): seq<nat>
      requires Valid()
      reads bytes
    {
      Keys(bytes[..])
    }

    /** A node page with its first triple (gs_btreetopicpage_insert_first_triple). */
    constructor (n: nat, left: nat, key: nat, right: nat)
      requires 0 < n < INT_LIMIT && left < INT_LIMIT && key < INT_LIMIT && right < INT_LIMIT
      ensures Valid() && fresh(bytes) && Number(bytes[..]) == n && Children() == [left, right] && Separators() == [key]
    {
      var blank := Blank(n);
      bytes := new Byte[PAGE_SIZE](i requires 0 <= i < PAGE_SIZE => blank[i]);
      new;
      assert bytes[..] == blank;
      BlankNode(n);
      PutInt(bytes, TYPE_OFS, BTREE_NODE);
      SetChanged(bytes);
      hide Word, Set, Number, Kind, Count, WithCount;
      ghost var p0: Page := bytes[..];
      PutWord(bytes, 0, left);
      ghost var p1: Page := bytes[..];
      PutWord(bytes, 1, key);
      ghost var p2: Page := bytes[..];
      PutWord(bytes, 2, right);
      FirstTriple(p0, p1, p2, bytes[..], left, key, right);
      PutCount(bytes, 2);
    }

    /**
     * gs_btreetopicpage_insert_entry: key and pnum go right after the last pointer to page
     * n. The source asserts that the key there is greater.
     */
    method InsertEntry(n: nat, key: nat, pnum: nat) returns (ghost at: nat)
      requires Valid() && |Children()| < NODE_ROOM && n in Children() && 0 < key < INT_LIMIT && 0 < pnum < INT_LIMIT
      requires forall i: nat :: LastPtr(Children(), n, i) && i < |Separators()| ==> Separators()[i] > key
      modifies bytes
      ensures Valid() && Number(bytes[..]) == Number(old(bytes[..])) && LastPtr(old(Children()), n, at)
      ensures Children() == old(Children())[..at + 1] + [pnum] + old(Children())[at + 1..]
      ensures Separators() == old(Separators())[..at] + [key] + old(Separators())[at..]
    {
      hide Word, Copied, Set, Shifted, Number, Kind, Count, WithCount;
      ghost var p: Page := bytes[..];
      ghost var ps, ks := Ptrs(p), Keys(p);
      var q := Count(bytes[..]);
      var i: nat := q - 1;
      NotShifted(p);
      ShiftedPtr(p, bytes[..], i);
      ghost var last: nat :| last < |ps| && ps[last] == n;
      while Word(bytes[..], 2 * i) != n
        invariant 0 <= i < q && Shifted(p, bytes[..], i, q) && Word(bytes[..], 2 * i) == ps[i]
        invariant forall j :: i < j < q ==> ps[j] != n
        invariant last <= i < q
        decreases i
      {
        ghost var before: Page := bytes[..];
        CopyWords(bytes, 2 * i + 1, 2 * i - 1, 2);
        ShiftMoves(p, before, bytes[..], i, q);
        i := i - 1;
        ShiftedPtr(p, bytes[..], i);
      }
      at := i;
      assert LastPtr(ps, n, i);
      ShiftedPtr(p, bytes[..], i);
      if i != q - 1 {
        assert Word(bytes[..], 2 * i + 1) == ks[i] > key;
      }
      ghost var p0: Page := bytes[..];
      PutWord(bytes, 2 * i + 1, key);
      ghost var p1: Page := bytes[..];
      PutWord(bytes, 2 * i + 2, pnum);
      ShiftFilled(p, p0, p1, bytes[..], i, key, pnum);
      PutCount(bytes, q + 1);
    }
  }

  lemma BlankNode(n: nat)
    requires 0 < n < INT_LIMIT
    ensures var q := WithFlag(WithInt(Blank(n), TYPE_OFS, BTREE_NODE), 1);
            Number(q) == n && Kind(q) == BTREE_NODE && Count(q) == 0
  {
    var p := Blank(n);
    var p1 := WithInt(p, TYPE_OFS, BTREE_NODE);
    var q := WithFlag(p1, 1);
    BlankIs(n);
    IntRead(p, TYPE_OFS, BTREE_NODE);
    FlagKept(p1, TYPE_OFS);
    IntAgrees(p, q, NUM_OFS);
    assert forall k :: ENTRYNUM_OFS <= k < PAGE_SIZE ==> q[k] == 0;
  }

  lemma FirstTriple(p0: Page, p1: Page, p2: Page, p3: Page, left: nat, key: nat, right: nat)
    requires Set(p0, p1, 0, left) && Set(p1, p2, 1, key) && Set(p2, p3, 2, right)
    ensures var z := WithCount(p3, 2);
            Number(z) == Number(p0) && Kind(z) == Kind(p0) && Count(z) == 2 && Ptrs(z) == [left, right]
            && Keys(z) == [key]
  {
    CountSet(p3, 2);
    var z := WithCount(p3, 2);
    hide Number, Word, Kind, WithCount;
    assert Ptr(z, 0) == left && Ptr(z, 1) == right && KeyAt(z, 0) == key;
  }
}
