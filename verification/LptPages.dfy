/**
 * A page of the locator prefix tree as bytes (stores/filestore/lptpage.c): a skip string,
 * one bucket per key character, and the leaves that buckets refer to, allocated upwards
 * from the end of the buckets.
 */
module LptPages {
  import opened Pages

  const PCHAR_OFS := 9
  const PNUM_OFS := 12
  const SKIPLEN_OFS := 16
  const SKIPCNODE_OFS := 20
  const SKIPINODE_OFS := 24
  const FREESTART_OFS := 28
  const HEADER_LEN := 32
  const SKIP_MAXLEN := 500
  const LOWKEY := 33
  const HIGHKEY := 126
  const BUCKET_SIZE := 5
  const BUCKETS_OFS := 532
  const LEAVES_OFS := 1002

  type Key = k: int | LOWKEY <= k <= HIGHKEY witness LOWKEY

  datatype Bucket = Empty | Child(ref: nat) | Leaf(ctopic: nat, itopic: nat, str: seq<Byte>)

  /** What a page says, apart from its number and changed flag. */
  datatype Content = Content(parentChar: Byte, parent: nat, skip: seq<Byte>, skipC: nat, skipI: nat,
                             buckets: map<Key, Bucket>)

  function BucketOfs(key: Key): nat {
    BUCKETS_OFS + (key - LOWKEY) * BUCKET_SIZE
  }

  function RefAt(p: Page, key: Key): nat {
    IntAt(p, BucketOfs(key) + 1)
  }

  predicate IsLeaf(p: Page, key: Key) {
    p[BucketOfs(key)] != 0
  }

  /** A leaf's bytes: two topics, the length of its string, and the string, below free. */
  predicate LeafOk(p: Page, key: Key, free: nat)
    requires free < PAGE_SIZE
  {
    LEAVES_OFS <= RefAt(p, key) && RefAt(p, key) + 12 <= free
    && RefAt(p, key) + 12 + IntAt(p, RefAt(p, key) + 8) <= free
  }

  function LeafEnd(p: Page, key: Key): nat {
    if RefAt(p, key) + 12 <= PAGE_SIZE then RefAt(p, key) + 12 + IntAt(p, RefAt(p, key) + 8) else PAGE_SIZE
  }

  predicate Apart(p: Page, j: Key, k: Key) {
    LeafEnd(p, j) <= RefAt(p, k) || LeafEnd(p, k) <= RefAt(p, j)
  }

  /** Leaves lie between the buckets and the free space, and no two of them overlap. */
  ghost predicate PageOk(p: Page) {
    && LEAVES_OFS <= IntAt(p, FREESTART_OFS) < PAGE_SIZE && IntAt(p, SKIPLEN_OFS) < SKIP_MAXLEN
    && (forall k: Key :: p[BucketOfs(k)] <= 1)
    && (forall k: Key :: IsLeaf(p, k) ==> LeafOk(p, k, IntAt(p, FREESTART_OFS)))
    && (forall j: Key, k: Key :: j != k && IsLeaf(p, j) && IsLeaf(p, k) ==> Apart(p, j, k))
  }

  function BucketAt(p: Page, key: Key): Bucket
    requires IsLeaf(p, key) ==> LeafOk(p, key, PAGE_SIZE - 1)
  {
    var r := RefAt(p, key);
    if IsLeaf(p, key) then Leaf(IntAt(p, r), IntAt(p, r + 4), p[r + 12..LeafEnd(p, key)])
    else if r == 0 then Empty
    else Child(r)
  }

  function SkipAt(p: Page): seq<Byte>
    requires IntAt(p, SKIPLEN_OFS) < SKIP_MAXLEN
  {
    p[HEADER_LEN..HEADER_LEN + IntAt(p, SKIPLEN_OFS)]
  }

  ghost function ContentOf(p: Page): Content
    requires PageOk(p)
  {
    Content(p[PCHAR_OFS], IntAt(p, PNUM_OFS), SkipAt(p), IntAt(p, SKIPCNODE_OFS), IntAt(p, SKIPINODE_OFS),
            map k: Key | LOWKEY <= k <= HIGHKEY :: BucketAt(p, k))
  }

  /** The bucket, and the leaf it refers to, are the same in both pages. */
  ghost predicate KeptBucket(p: Page, q: Page, key: Key, free: nat)
    requires free < PAGE_SIZE && (IsLeaf(p, key) ==> LeafOk(p, key, free))
  {
    && p[BucketOfs(key)] == q[BucketOfs(key)] && RefAt(p, key) == RefAt(q, key)
    && (IsLeaf(p, key) ==> LeafOk(q, key, free) && LeafEnd(p, key) == LeafEnd(q, key))
    && BucketAt(p, key) == BucketAt(q, key)
  }

  /** Equal bytes in a bucket and in its leaf make an equal bucket. */
  lemma SameBucket(p: Page, q: Page, key: Key, free: nat)
    requires free < PAGE_SIZE && (IsLeaf(p, key) ==> LeafOk(p, key, free))
    requires Agree(p, q, BucketOfs(key), BucketOfs(key) + BUCKET_SIZE)
    requires IsLeaf(p, key) ==> Agree(p, q, RefAt(p, key), LeafEnd(p, key))
    ensures KeptBucket(p, q, key, free)
  {
    IntAgrees(p, q, BucketOfs(key) + 1);
    if IsLeaf(p, key) {
      var r := RefAt(p, key);
      IntAgrees(p, q, r);
      IntAgrees(p, q, r + 4);
      IntAgrees(p, q, r + 8);
      assert p[r + 12..LeafEnd(p, key)] == q[r + 12..LeafEnd(p, key)];
    }
  }

  lemma SameHeader(p: Page, q: Page)
    requires Agree(p, q, PCHAR_OFS, FREESTART_OFS) && Agree(p, q, HEADER_LEN, BUCKETS_OFS)
    requires IntAt(p, SKIPLEN_OFS) < SKIP_MAXLEN
    ensures IntAt(q, SKIPLEN_OFS) == IntAt(p, SKIPLEN_OFS) && SkipAt(q) == SkipAt(p)
    ensures IntAt(q, SKIPCNODE_OFS) == IntAt(p, SKIPCNODE_OFS) && IntAt(q, SKIPINODE_OFS) == IntAt(p, SKIPINODE_OFS)
    ensures IntAt(q, PNUM_OFS) == IntAt(p, PNUM_OFS) && q[PCHAR_OFS] == p[PCHAR_OFS]
  {
    IntAgrees(p, q, PNUM_OFS);
    IntAgrees(p, q, SKIPLEN_OFS);
    IntAgrees(p, q, SKIPCNODE_OFS);
    IntAgrees(p, q, SKIPINODE_OFS);
  }

  lemma BucketsApart(j: Key, k: Key)
    requires j != k
    ensures BucketOfs(j) + BUCKET_SIZE <= BucketOfs(k) || BucketOfs(k) + BUCKET_SIZE <= BucketOfs(j)
    ensures BucketOfs(k) + BUCKET_SIZE <= LEAVES_OFS
  {
  }

  // --- inserting a leaf ------------------------------------------------------------------

  /** k is neither the changed flag nor in the free start, the bucket or the new leaf. */
  predicate Outside(k: nat, key: Key, free: nat, size: nat) {
    && k != CHGFLAG_OFS && !(FREESTART_OFS <= k < FREESTART_OFS + 4)
    && !(BucketOfs(key) <= k < BucketOfs(key) + BUCKET_SIZE) && !(free <= k < free + size)
  }

  /** The bytes that the insertion of a leaf leaves alone. */
  ghost predicate OnlyLeafWritten(p: Page, q: Page, key: Key, free: nat, size: nat) {
    forall k :: 0 <= k < PAGE_SIZE && Outside(k, key, free, size) ==> q[k] == p[k]
  }

  lemma OthersKept(p: Page, q: Page, key: Key, free: nat, size: nat, k: Key)
    requires PageOk(p) && free == IntAt(p, FREESTART_OFS) && OnlyLeafWritten(p, q, key, free, size) && k != key
    ensures KeptBucket(p, q, k, free)
  {
    BucketsApart(key, k);
    BucketsApart(k, key);
    SameBucket(p, q, k, free);
  }

  /** The leaves that stay are still in order and below the old free start. */
  lemma KeptOk(p: Page, q: Page, free: nat, key: Key)
    requires PageOk(p) && free == IntAt(p, FREESTART_OFS)
    requires forall k: Key :: k != key ==> KeptBucket(p, q, k, free)
    ensures forall k: Key :: k != key ==> q[BucketOfs(k)] <= 1 && (IsLeaf(q, k) ==> LeafOk(q, k, free))
    ensures forall j: Key, k: Key :: j != k && j != key && k != key && IsLeaf(q, j) && IsLeaf(q, k) ==> Apart(q, j, k)
  {
    hide IntAt, BucketAt;
    forall k: Key | k != key ensures q[BucketOfs(k)] <= 1 && (IsLeaf(q, k) ==> LeafOk(q, k, free)) {
      assert KeptBucket(p, q, k, free);
    }
    forall j: Key, k: Key | j != k && j != key && k != key && IsLeaf(q, j) && IsLeaf(q, k) ensures Apart(q, j, k) {
      assert KeptBucket(p, q, j, free) && KeptBucket(p, q, k, free);
      assert Apart(p, j, k);
    }
  }

  /** The new leaf takes the free space after them. */
  lemma NewLeafOk(p: Page, q: Page, free: nat, key: Key, size: nat)
    requires 12 <= size && LEAVES_OFS <= free && free + size < PAGE_SIZE && IntAt(q, SKIPLEN_OFS) < SKIP_MAXLEN
    requires IntAt(q, FREESTART_OFS) == free + size && q[BucketOfs(key)] == 1 && RefAt(q, key) == free
             && IntAt(q, free + 8) == size - 12
    requires forall k: Key :: k != key ==> q[BucketOfs(k)] <= 1 && (IsLeaf(q, k) ==> LeafOk(q, k, free))
    requires forall j: Key, k: Key :: j != k && j != key && k != key && IsLeaf(q, j) && IsLeaf(q, k) ==> Apart(q, j, k)
    ensures PageOk(q)
  {
    hide IntAt, BucketOfs;
    forall j: Key, k: Key | j != k && IsLeaf(q, j) && IsLeaf(q, k) ensures Apart(q, j, k) {
      assert j != key ==> LeafOk(q, j, free);
      assert k != key ==> LeafOk(q, k, free);
    }
  }

  lemma NewLeaf(q: Page, free: nat, key: Key, ctopic: nat, itopic: nat, str: seq<Byte>)
    requires free + 12 + |str| < PAGE_SIZE && q[BucketOfs(key)] == 1 && RefAt(q, key) == free
    requires IntAt(q, free) == ctopic && IntAt(q, free + 4) == itopic && IntAt(q, free + 8) == |str|
    requires q[free + 12..free + 12 + |str|] == str && LEAVES_OFS <= free
    ensures BucketAt(q, key) == Leaf(ctopic, itopic, str)
  {
    hide IntAt, BucketOfs;
  }

  /** The page after the writes of an insertion: one more bucket, everything else as before. */
  lemma Inserted(p: Page, q: Page, key: Key, free: nat, ctopic: nat, itopic: nat, str: seq<Byte>)
    requires PageOk(p) && free == IntAt(p, FREESTART_OFS) && free + 12 + |str| < PAGE_SIZE
    requires OnlyLeafWritten(p, q, key, free, 12 + |str|)
    requires q[BucketOfs(key)] == 1 && RefAt(q, key) == free && IntAt(q, FREESTART_OFS) == free + 12 + |str|
    requires IntAt(q, free) == ctopic && IntAt(q, free + 4) == itopic && IntAt(q, free + 8) == |str|
    requires q[free + 12..free + 12 + |str|] == str
    ensures PageOk(q) && ContentOf(q)
            == ContentOf(p).(buckets := ContentOf(p).buckets[key := Leaf(ctopic, itopic, str)])
  {
    SameHeader(p, q);
    hide IntAt;
    forall k: Key | k != key ensures KeptBucket(p, q, k, free) {
      OthersKept(p, q, key, free, 12 + |str|, k);
    }
    hide BucketOfs, BucketAt;
    KeptOk(p, q, free, key);
    NewLeafOk(p, q, free, key, 12 + |str|);
    NewLeaf(q, free, key, ctopic, itopic, str);
    InsertedContent(p, q, key, free, Leaf(ctopic, itopic, str));
  }

  lemma InsertedContent(p: Page, q: Page, key: Key, free: nat, b: Bucket)
    requires PageOk(p) && PageOk(q) && free == IntAt(p, FREESTART_OFS)
    requires forall k: Key :: k != key ==> KeptBucket(p, q, k, free)
    requires BucketAt(q, key) == b
    ensures ContentOf(q).buckets == ContentOf(p).buckets[key := b]
  {
    hide IntAt, BucketOfs, BucketAt, RefAt, LeafEnd, Apart;
    forall k: Key | k != key ensures BucketAt(q, k) == BucketAt(p, k) {
      assert KeptBucket(p, q, k, free);
    }
  }

  function BucketWritten(p: Page, key: Key, free: nat): Page
    requires free < INT_LIMIT
  {
    WithInt(p[BucketOfs(key) := 1], BucketOfs(key) + 1, free)
  }

  function LeafWritten(p: Page, free: nat, ctopic: nat, itopic: nat, str: seq<Byte>): Page
    requires free + 12 + |str| < PAGE_SIZE && ctopic < INT_LIMIT && itopic < INT_LIMIT
  {
    WithBytes(WithInt(WithInt(WithInt(p, free, ctopic), free + 4, itopic), free + 8, |str|), free + 12, str)
  }

  function FreeWritten(p: Page, n: nat): Page
    requires n < INT_LIMIT
  {
    WithFlag(WithInt(p, FREESTART_OFS, n), 1)
  }

  lemma BucketWrittenIs(p: Page, key: Key, free: nat)
    requires free < INT_LIMIT
    ensures var q := BucketWritten(p, key, free);
            && q[BucketOfs(key)] == 1 && RefAt(q, key) == free
            && Agree(p, q, 0, BucketOfs(key)) && Agree(p, q, BucketOfs(key) + BUCKET_SIZE, PAGE_SIZE)
  {
    IntRead(p[BucketOfs(key) := 1], BucketOfs(key) + 1, free);
    hide IntAt, WithInt;
  }

  lemma LeafWrittenIs(p: Page, free: nat, ctopic: nat, itopic: nat, str: seq<Byte>)
    requires free + 12 + |str| < PAGE_SIZE && ctopic < INT_LIMIT && itopic < INT_LIMIT
    ensures var q := LeafWritten(p, free, ctopic, itopic, str);
            && IntAt(q, free) == ctopic && IntAt(q, free + 4) == itopic && IntAt(q, free + 8) == |str|
            && q[free + 12..free + 12 + |str|] == str
            && Agree(p, q, 0, free) && Agree(p, q, free + 12 + |str|, PAGE_SIZE)
  {
    hide IntAt, WithInt;
    var p1 := WithInt(p, free, ctopic);
    var p2 := WithInt(p1, free + 4, itopic);
    var p3 := WithInt(p2, free + 8, |str|);
    IntRead(p, free, ctopic);
    IntRead(p1, free + 4, itopic);
    IntRead(p2, free + 8, |str|);
    IntKept(p1, free + 4, itopic, free);
    IntKept(p2, free + 8, |str|, free);
    IntKept(p2, free + 8, |str|, free + 4);
    BytesKept(p3, free + 12, str, free);
    BytesKept(p3, free + 12, str, free + 4);
    BytesKept(p3, free + 12, str, free + 8);
  }

  lemma FreeWrittenIs(p: Page, n: nat)
    requires n < INT_LIMIT
    ensures var q := FreeWritten(p, n);
            && IntAt(q, FREESTART_OFS) == n
            && Agree(p, q, 0, CHGFLAG_OFS) && Agree(p, q, CHGFLAG_OFS + 1, FREESTART_OFS)
            && Agree(p, q, FREESTART_OFS + 4, PAGE_SIZE)
  {
    IntRead(p, FREESTART_OFS, n);
    FlagKept(WithInt(p, FREESTART_OFS, n), FREESTART_OFS);
  }

  /** The writes themselves (lptpage.c:480-499), in their order. */
  function Insertion(p: Page, key: Key, free: nat, ctopic: nat, itopic: nat, str: seq<Byte>): Page
    requires LEAVES_OFS <= free && free + 12 + |str| < PAGE_SIZE && ctopic < INT_LIMIT && itopic < INT_LIMIT
  {
    FreeWritten(LeafWritten(BucketWritten(p, key, free), free, ctopic, itopic, str), free + 12 + |str|)
  }

  lemma InsertionWrites(p: Page, key: Key, free: nat, ctopic: nat, itopic: nat, str: seq<Byte>)
    requires LEAVES_OFS <= free && free + 12 + |str| < PAGE_SIZE && ctopic < INT_LIMIT && itopic < INT_LIMIT
    ensures var q := Insertion(p, key, free, ctopic, itopic, str);
            && OnlyLeafWritten(p, q, key, free, 12 + |str|)
            && q[BucketOfs(key)] == 1 && RefAt(q, key) == free && IntAt(q, FREESTART_OFS) == free + 12 + |str|
            && IntAt(q, free) == ctopic && IntAt(q, free + 4) == itopic && IntAt(q, free + 8) == |str|
            && q[free + 12..free + 12 + |str|] == str
  {
    BucketInPage(key);
    hide BucketWritten, LeafWritten, FreeWritten, IntAt, BucketOfs;
    var p1 := BucketWritten(p, key, free);
    var p2 := LeafWritten(p1, free, ctopic, itopic, str);
    var q := FreeWritten(p2, free + 12 + |str|);
    BucketWrittenIs(p, key, free);
    LeafWrittenIs(p1, free, ctopic, itopic, str);
    FreeWrittenIs(p2, free + 12 + |str|);
    IntAgrees(p1, p2, BucketOfs(key) + 1);
    IntAgrees(p2, q, BucketOfs(key) + 1);
    IntAgrees(p2, q, free);
    IntAgrees(p2, q, free + 4);
    IntAgrees(p2, q, free + 8);
    assert q[free + 12..free + 12 + |str|] == p2[free + 12..free + 12 + |str|];
  }

  // --- changing one bucket and its leaf in place ------------------------------------------

  /** k is neither the changed flag nor in the bucket of the key or in the leaf that it refers to. */
  predicate Elsewhere(p: Page, key: Key, k: nat) {
    k != CHGFLAG_OFS && !(BucketOfs(key) <= k < BucketOfs(key) + BUCKET_SIZE)
    && !(IsLeaf(p, key) && RefAt(p, key) <= k < LeafEnd(p, key))
  }

  ghost predicate OnlyBucketWritten(p: Page, q: Page, key: Key) {
    forall k :: 0 <= k < PAGE_SIZE && Elsewhere(p, key, k) ==> q[k] == p[k]
  }

  lemma OtherBucketKept(p: Page, q: Page, key: Key, k: Key)
    requires PageOk(p) && OnlyBucketWritten(p, q, key) && k != key
    ensures KeptBucket(p, q, k, IntAt(p, FREESTART_OFS))
  {
    BucketsApart(key, k);
    BucketsApart(k, key);
    if IsLeaf(p, key) && IsLeaf(p, k) { assert Apart(p, key, k); }
    SameBucket(p, q, k, IntAt(p, FREESTART_OFS));
  }

  lemma HeaderKept(p: Page, q: Page, key: Key)
    requires PageOk(p) && OnlyBucketWritten(p, q, key)
    ensures Agree(p, q, CHGFLAG_OFS + 1, BUCKETS_OFS) && Number(q) == Number(p)
  {
    BucketInPage(key);
    assert IsLeaf(p, key) ==> LeafOk(p, key, IntAt(p, FREESTART_OFS));
    hide BucketOfs;
    assert Agree(p, q, 0, CHGFLAG_OFS);
    IntAgrees(p, q, NUM_OFS);
  }

  /** Whatever is written in a bucket and its leaf, if the leaf keeps its place the others keep their contents. */
  lemma Rewritten(p: Page, q: Page, key: Key)
    requires PageOk(p) && OnlyBucketWritten(p, q, key) && q[BucketOfs(key)] <= 1
    requires IsLeaf(q, key) ==> IsLeaf(p, key) && RefAt(q, key) == RefAt(p, key) && LeafEnd(q, key) == LeafEnd(p, key)
    ensures PageOk(q) && Number(q) == Number(p)
    ensures ContentOf(q) == ContentOf(p).(buckets := ContentOf(p).buckets[key := BucketAt(q, key)])
  {
    var free := IntAt(p, FREESTART_OFS);
    HeaderKept(p, q, key);
    SameHeader(p, q);
    IntAgrees(p, q, FREESTART_OFS);
    forall k: Key | k != key ensures KeptBucket(p, q, k, free) { OtherBucketKept(p, q, key, k); }
    KeptOk(p, q, free, key);
    RewrittenOk(p, q, key);
    InsertedContent(p, q, key, free, BucketAt(q, key));
  }

  lemma RewrittenOk(p: Page, q: Page, key: Key)
    requires PageOk(p) && IntAt(q, FREESTART_OFS) == IntAt(p, FREESTART_OFS) && IntAt(q, SKIPLEN_OFS) < SKIP_MAXLEN
    requires q[BucketOfs(key)] <= 1
    requires IsLeaf(q, key) ==> IsLeaf(p, key) && RefAt(q, key) == RefAt(p, key) && LeafEnd(q, key) == LeafEnd(p, key)
    requires forall k: Key :: k != key ==> KeptBucket(p, q, k, IntAt(p, FREESTART_OFS))
    requires forall k: Key :: k != key ==>
               q[BucketOfs(k)] <= 1 && (IsLeaf(q, k) ==> LeafOk(q, k, IntAt(p, FREESTART_OFS)))
    requires forall j: Key, k: Key :: j != k && j != key && k != key && IsLeaf(q, j) && IsLeaf(q, k) ==> Apart(q, j, k)
    ensures PageOk(q)
  {
    hide IntAt, BucketAt;
    forall j: Key, k: Key | j != k && IsLeaf(q, j) && IsLeaf(q, k) ensures Apart(q, j, k) {
      assert j != key ==> KeptBucket(p, q, j, IntAt(p, FREESTART_OFS));
      assert k != key ==> KeptBucket(p, q, k, IntAt(p, FREESTART_OFS));
      assert Apart(p, j, k);
    }
  }

  function Zeros(n: nat): seq<Byte> {
    seq(n, _ => 0)
  }

  /** gs_lptpage_clear_bucket. */
  function Cleared(p: Page, key: Key): Page
    requires IsLeaf(p, key) ==> LeafOk(p, key, PAGE_SIZE - 1)
  {
    var p1 := if IsLeaf(p, key) then WithBytes(p, RefAt(p, key), Zeros(LeafEnd(p, key) - RefAt(p, key))) else p;
    WithFlag(WithBytes(p1, BucketOfs(key), Zeros(BUCKET_SIZE)), 1)
  }

  lemma ClearedIs(p: Page, key: Key)
    requires PageOk(p)
    ensures var q := Cleared(p, key);
            PageOk(q) && Number(q) == Number(p)
            && ContentOf(q) == ContentOf(p).(buckets := ContentOf(p).buckets[key := Empty])
  {
    BucketInPage(key);
    var q := Cleared(p, key);
    assert OnlyBucketWritten(p, q, key);
    assert q[BucketOfs(key)] == 0 && RefAt(q, key) == 0;
    Rewritten(p, q, key);
  }

  /** gs_lptpage_set_bucket: the reference to a child page replaces whatever the bucket had. */
  function Referring(p: Page, key: Key, ref: nat): Page
    requires IsLeaf(p, key) ==> LeafOk(p, key, PAGE_SIZE - 1)
    requires ref < INT_LIMIT
  {
    WithInt(Cleared(p, key), BucketOfs(key) + 1, ref)
  }

  lemma ReferringIs(p: Page, key: Key, ref: nat)
    requires PageOk(p) && ref < INT_LIMIT
    ensures var q := Referring(p, key, ref);
            && PageOk(q) && Number(q) == Number(p)
            && ContentOf(q)
            == ContentOf(p).(buckets := ContentOf(p).buckets[key := if ref == 0 then Empty else Child(ref)])
  {
    ClearedIs(p, key);
    var p1 := Cleared(p, key);
    assert BucketAt(p1, key) == Empty;
    hide Cleared, ContentOf, PageOk, BucketAt, Number;
    ReferredTo(p1, key, ref);
    LastSet(ContentOf(p).buckets, key, if ref == 0 then Empty else Child(ref));
  }

  lemma LastSet(m: map<Key, Bucket>, key: Key, b: Bucket)
    ensures m[key := Empty][key := b] == m[key := b]
  {
  }

  lemma ReferredTo(p: Page, key: Key, ref: nat)
    requires PageOk(p) && ref < INT_LIMIT && BucketAt(p, key) == Empty
    ensures var q := WithInt(p, BucketOfs(key) + 1, ref);
            && PageOk(q) && Number(q) == Number(p)
            && ContentOf(q)
            == ContentOf(p).(buckets := ContentOf(p).buckets[key := if ref == 0 then Empty else Child(ref)])
  {
    BucketInPage(key);
    IntRead(p, BucketOfs(key) + 1, ref);
    hide IntAt, WithInt, BucketOfs;
    var q := WithInt(p, BucketOfs(key) + 1, ref);
    assert OnlyBucketWritten(p, q, key);
    Rewritten(p, q, key);
  }

  lemma TopicReads(p: Page, key: Key, r: nat, at: nat, t: nat)
    requires (at == 0 || at == 4) && t < INT_LIMIT && LEAVES_OFS <= r && r + 12 <= PAGE_SIZE
    ensures var q := WithFlag(WithInt(p, r + at, t), 1);
            && IntAt(q, r + at) == t && IntAt(q, r + (4 - at)) == IntAt(p, r + (4 - at))
            && IntAt(q, r + 8) == IntAt(p, r + 8)
            && RefAt(q, key) == RefAt(p, key) && q[BucketOfs(key)] == p[BucketOfs(key)]
            && Agree(p, q, r + 12, PAGE_SIZE)
            && forall k :: 0 <= k < PAGE_SIZE && k != CHGFLAG_OFS && !(r <= k < r + 8) ==> q[k] == p[k]
  {
    BucketInPage(key);
    var p1 := WithInt(p, r + at, t);
    IntRead(p, r + at, t);
    IntKept(p, r + at, t, r + (4 - at));
    IntKept(p, r + at, t, r + 8);
    IntKept(p, r + at, t, BucketOfs(key) + 1);
    hide IntAt, WithInt, BucketOfs;
    FlagKept(p1, r);
    FlagKept(p1, r + 4);
    FlagKept(p1, r + 8);
    FlagKept(p1, BucketOfs(key) + 1);
  }

  /** A topic of the leaf overwritten in place: the constituted one at offset 0, the indicated one at 4. */
  lemma TopicWritten(p: Page, key: Key, at: nat, t: nat)
    requires PageOk(p) && IsLeaf(p, key) && (at == 0 || at == 4) && t < INT_LIMIT
    requires RefAt(p, key) + 12 <= PAGE_SIZE
    ensures var q, b := WithFlag(WithInt(p, RefAt(p, key) + at, t), 1), ContentOf(p).buckets[key];
            && PageOk(q) && Number(q) == Number(p) && b.Leaf?
            && var now := if at == 0 then b.(ctopic := t) else b.(itopic := t);
               ContentOf(q) == ContentOf(p).(buckets := ContentOf(p).buckets[key := now])
  {
    hide IntAt, WithInt, WithFlag, BucketOfs, BucketAt, ContentOf, PageOk, Number, RefAt;
    LeafView(p, key);
    var r, end := RefAt(p, key), LeafEnd(p, key);
    var q := WithFlag(WithInt(p, r + at, t), 1);
    TopicReads(p, key, r, at, t);
    assert LeafEnd(q, key) == end;
    assert p[r + 12..end] == q[r + 12..end];
    assert OnlyBucketWritten(p, q, key);
    NewLeaf(q, r, key, IntAt(q, r), IntAt(q, r + 4), p[r + 12..end]);
    Rewritten(p, q, key);
  }

  lemma LeafView(p: Page, key: Key)
    requires PageOk(p) && IsLeaf(p, key)
    ensures var r := RefAt(p, key);
            && LEAVES_OFS <= r && r + 12 <= LeafEnd(p, key) < PAGE_SIZE && LeafEnd(p, key) == r + 12 + IntAt(p, r + 8)
            && p[BucketOfs(key)] == 1
            && ContentOf(p).buckets[key] == Leaf(IntAt(p, r), IntAt(p, r + 4), p[r + 12..LeafEnd(p, key)])
  {
    assert LeafOk(p, key, IntAt(p, FREESTART_OFS));
  }

  // --- the page object ----------------------------------------------------------------------

  class LptPage {
    const bytes: array<Byte>

    /** gs_lptpage_init. */
    constructor (n: nat)
      requires 0 < n < INT_LIMIT
      ensures Valid() && fresh(bytes) && Number(bytes[..]) == n
      ensures View().skip == [] && View().skipC == 0 && View().skipI == 0
      ensures forall k: Key :: k in View().buckets && View().buckets[k] == Empty
    {
      var blank := Blank(n);
      bytes := new Byte[PAGE_SIZE](i requires 0 <= i < PAGE_SIZE => blank[i]);
      new;
      assert bytes[..] == blank;
      BlankPage(n);
      PutFreeStart(LEAVES_OFS);
    }

    ghost predicate Valid()
      reads bytes
    {
      bytes.Length == PAGE_SIZE && PageOk(bytes[..])
    }

    ghost function View(): Content
      requires Valid()
      reads bytes
    {
      ContentOf(bytes[..])
    }

    /** gs_lptpage_get_bucket. */
    method GetBucket(key: Key) returns (b: Bucket)
      requires Valid()
      ensures b == View().buckets[key]
    {
      var o := BucketOfs(key);
      var r := IntAt(bytes[..], o + 1);
      if bytes[o] != 0 {
        assert LeafOk(bytes[..], key, IntAt(bytes[..], FREESTART_OFS));
        var len := IntAt(bytes[..], r + 8);
        return Leaf(IntAt(bytes[..], r), IntAt(bytes[..], r + 4), bytes[r + 12..r + 12 + len]);
      }
      return if r == 0 then Empty else Child(r);
    }

    /**
     * gs_lptpage_raw_insert. The bucket of the first character must be empty; false means
     * that the page has no room left.
     */
    method RawInsert(suffix: seq<Byte>, ctopic: nat, itopic: nat) returns (ok: bool)
      requires Valid() && 0 < ctopic < INT_LIMIT && itopic < INT_LIMIT
      requires suffix != [] ==> LOWKEY <= suffix[0] <= HIGHKEY && View().buckets[suffix[0]] == Empty
      modifies bytes
      ensures Valid() && Number(bytes[..]) == Number(old(bytes[..]))
      ensures suffix == [] ==> ok && View() == old(View()).(skipC := ctopic, skipI := itopic)
      ensures suffix != [] && ok ==>
                View() == old(View()).(buckets := old(View()).buckets[suffix[0] := Leaf(ctopic, itopic, suffix[1..])])
      ensures suffix != [] ==> ok == (PAGE_SIZE - old(IntAt(bytes[..], FREESTART_OFS)) >= |suffix| + 12)
      ensures !ok ==> bytes[..] == old(bytes[..])
    {
      hide PageOk, ContentOf, IntAt, BucketOfs, Number;
      ghost var p: Page := bytes[..];
      if suffix == [] {
        SetSkipTopics(ctopic, itopic);
        return true;
      }
      var free := IntAt(bytes[..], FREESTART_OFS);
      FreeInRange(p);
      if PAGE_SIZE - free < |suffix| + 12 {
        return false;
      }
      var key: Key, str := suffix[0], suffix[1..];
      InsertionWrites(p, key, free, ctopic, itopic, str);
      Inserted(p, Insertion(p, key, free, ctopic, itopic, str), key, free, ctopic, itopic, str);
      InsertionNumber(p, Insertion(p, key, free, ctopic, itopic, str), key, free, 12 + |str|);
      hide BucketWritten, LeafWritten, FreeWritten;
      PutBucket(key, free);
      PutLeaf(free, ctopic, itopic, str);
      PutFreeStart(free + 12 + |str|);
      return true;
    }

    /** gs_lptpage_clear_bucket. */
    method ClearBucket(key: Key)
      requires Valid()
      modifies bytes
      ensures Valid() && Number(bytes[..]) == Number(old(bytes[..]))
      ensures View() == old(View()).(buckets := old(View()).buckets[key := Empty])
    {
      hide PageOk, ContentOf, Number, IntAt, BucketOfs, WithBytes;
      ghost var p: Page := bytes[..];
      LeafInPage(p, key);
      BucketInPage(key);
      ClearedIs(p, key);
      if bytes[BucketOfs(key)] != 0 {
        var r := IntAt(bytes[..], BucketOfs(key) + 1);
        var len := IntAt(bytes[..], r + 8);
        PutBytes(bytes, r, Zeros(12 + len));
      }
      PutBytes(bytes, BucketOfs(key), Zeros(BUCKET_SIZE));
      SetChanged(bytes);
    }

    /** gs_lptpage_set_bucket, which sets references to child pages only. */
    method SetChild(key: Key, ref: nat)
      requires Valid() && ref < INT_LIMIT
      modifies bytes
      ensures Valid() && Number(bytes[..]) == Number(old(bytes[..]))
      ensures View() == old(View()).(buckets := old(View()).buckets[key := if ref == 0 then Empty else Child(ref)])
    {
      hide PageOk, ContentOf, Number, IntAt, WithInt, BucketOfs, WithBytes;
      ghost var p: Page := bytes[..];
      LeafInPage(p, key);
      BucketInPage(key);
      ReferringIs(p, key, ref);
      if bytes[BucketOfs(key)] != 0 {
        var r := IntAt(bytes[..], BucketOfs(key) + 1);
        var len := IntAt(bytes[..], r + 8);
        PutBytes(bytes, r, Zeros(12 + len));
      }
      PutBytes(bytes, BucketOfs(key), Zeros(BUCKET_SIZE));
      SetChanged(bytes);
      PutInt(bytes, BucketOfs(key) + 1, ref);
    }

    /** gs_lptpage_set_bucket_ctopic and gs_lptpage_set_bucket_itopic, on the leaf the bucket has. */
    method SetLeafTopic(key: Key, indicated: bool, t: nat)
      requires Valid() && View().buckets[key].Leaf? && t < INT_LIMIT
      modifies bytes
      ensures Valid() && Number(bytes[..]) == Number(old(bytes[..]))
      ensures var b := old(View()).buckets[key];
              var now := if indicated then b.(itopic := t) else b.(ctopic := t);
              View() == old(View()).(buckets := old(View()).buckets[key := now])
    {
      hide PageOk, ContentOf, Number, IntAt, WithInt, BucketOfs, IsLeaf, WithFlag;
      ghost var p: Page := bytes[..];
      LeafOf(p, key);
      BucketInPage(key);
      var r := IntAt(bytes[..], BucketOfs(key) + 1);
      var at := if indicated then 4 else 0;
      TopicWritten(p, key, at, t);
      PutInt(bytes, r + at, t);
      SetChanged(bytes);
    }

    method SetSkipTopics(ctopic: nat, itopic: nat)
      requires Valid() && ctopic < INT_LIMIT && itopic < INT_LIMIT
      modifies bytes
      ensures Valid() && Number(bytes[..]) == Number(old(bytes[..]))
      ensures View() == old(View()).(skipC := ctopic, skipI := itopic)
    {
      hide PageOk, ContentOf, Number, WithInt;
      ghost var p: Page := bytes[..];
      SkipTopicsSet(p, ctopic, itopic);
      PutInt(bytes, SKIPCNODE_OFS, ctopic);
      PutInt(bytes, SKIPINODE_OFS, itopic);
      SetChanged(bytes);
    }

    /** gs_lptpage_set_parent_number and gs_lptpage_set_parent_char: where the reference to this page is. */
    method SetParent(parent: nat, key: Key)
      requires Valid() && 0 < parent < INT_LIMIT
      modifies bytes
      ensures Valid() && Number(bytes[..]) == Number(old(bytes[..]))
      ensures View() == old(View()).(parent := parent, parentChar := key)
    {
      hide PageOk, ContentOf, Number, WithInt;
      ghost var p: Page := bytes[..];
      ParentWrittenIs(p, parent, key);
      PutInt(bytes, PNUM_OFS, parent);
      SetChanged(bytes);
      ghost var p1: Page := bytes[..];
      bytes[PCHAR_OFS] := key;
      assert bytes[..] == p1[PCHAR_OFS := key];
      SetChanged(bytes);
    }

    /** gs_lptpage_set_skip. */
    method SetSkip(s: seq<Byte>)
      requires Valid() && |s| < SKIP_MAXLEN
      modifies bytes
      ensures Valid() && Number(bytes[..]) == Number(old(bytes[..])) && View() == old(View()).(skip := s)
    {
      hide PageOk, ContentOf, Number, WithInt, WithBytes;
      SkipWrittenIs(bytes[..], s);
      PutBytes(bytes, HEADER_LEN, Zeros(SKIP_MAXLEN));
      PutInt(bytes, SKIPLEN_OFS, |s|);
      PutBytes(bytes, HEADER_LEN, s);
      SetChanged(bytes);
    }

    method PutBucket(key: Key, free: nat)
      requires bytes.Length == PAGE_SIZE && free < INT_LIMIT
      modifies bytes
      ensures bytes[..] == BucketWritten(old(bytes[..]), key, free)
    {
      ghost var p: Page := bytes[..];
      bytes[BucketOfs(key)] := 1;
      assert bytes[..] == p[BucketOfs(key) := 1];
      hide WithInt;
      PutInt(bytes, BucketOfs(key) + 1, free);
    }

    method PutLeaf(free: nat, ctopic: nat, itopic: nat, str: seq<Byte>)
      requires bytes.Length == PAGE_SIZE && free + 12 + |str| < PAGE_SIZE && ctopic < INT_LIMIT && itopic < INT_LIMIT
      modifies bytes
      ensures bytes[..] == LeafWritten(old(bytes[..]), free, ctopic, itopic, str)
    {
      hide WithInt, WithBytes;
      PutInt(bytes, free, ctopic);
      PutInt(bytes, free + 4, itopic);
      PutInt(bytes, free + 8, |str|);
      PutBytes(bytes, free + 12, str);
    }

    /** gs_lptpage_set_freestart. */
    method PutFreeStart(n: nat)
      requires bytes.Length == PAGE_SIZE && n < INT_LIMIT
      modifies bytes
      ensures bytes[..] == FreeWritten(old(bytes[..]), n)
    {
      hide WithInt, WithFlag;
      PutInt(bytes, FREESTART_OFS, n);
      SetChanged(bytes);
    }
  }

  function SkipTopics(p: Page, ctopic: nat, itopic: nat): Page
    requires ctopic < INT_LIMIT && itopic < INT_LIMIT
  {
    WithFlag(WithInt(WithInt(p, SKIPCNODE_OFS, ctopic), SKIPINODE_OFS, itopic), 1)
  }

  lemma SkipTopicsSet(p: Page, ctopic: nat, itopic: nat)
    requires PageOk(p) && ctopic < INT_LIMIT && itopic < INT_LIMIT
    ensures var q := SkipTopics(p, ctopic, itopic);
            PageOk(q) && ContentOf(q) == ContentOf(p).(skipC := ctopic, skipI := itopic) && Number(q) == Number(p)
  {
    var p1 := WithInt(p, SKIPCNODE_OFS, ctopic);
    var p2 := WithInt(p1, SKIPINODE_OFS, itopic);
    var q := WithFlag(p2, 1);
    IntRead(p, SKIPCNODE_OFS, ctopic);
    IntRead(p1, SKIPINODE_OFS, itopic);
    hide IntAt, WithInt;
    IntKept(p1, SKIPINODE_OFS, itopic, SKIPCNODE_OFS);
    FlagKept(p2, SKIPCNODE_OFS);
    FlagKept(p2, SKIPINODE_OFS);
    IntAgrees(p, q, SKIPLEN_OFS);
    assert SkipAt(q) == SkipAt(p);
    SameRest(p, q);
  }

  function ParentWritten(p: Page, parent: nat, key: Key): Page
    requires parent < INT_LIMIT
  {
    WithFlag(WithFlag(WithInt(p, PNUM_OFS, parent), 1)[PCHAR_OFS := key], 1)
  }

  lemma ParentWrittenIs(p: Page, parent: nat, key: Key)
    requires PageOk(p) && parent < INT_LIMIT
    ensures var q := ParentWritten(p, parent, key);
            PageOk(q) && ContentOf(q) == ContentOf(p).(parent := parent, parentChar := key) && Number(q) == Number(p)
  {
    var p1 := WithInt(p, PNUM_OFS, parent);
    var q := ParentWritten(p, parent, key);
    IntRead(p, PNUM_OFS, parent);
    IntAgrees(p1, q, PNUM_OFS);
    hide IntAt, WithInt;
    IntAgrees(p, q, NUM_OFS);
    IntAgrees(p, q, SKIPLEN_OFS);
    IntAgrees(p, q, SKIPCNODE_OFS);
    IntAgrees(p, q, SKIPINODE_OFS);
    IntAgrees(p, q, FREESTART_OFS);
    assert SkipAt(q) == SkipAt(p);
    forall k: Key ensures KeptBucket(p, q, k, IntAt(p, FREESTART_OFS)) {
      SameBucket(p, q, k, IntAt(p, FREESTART_OFS));
    }
    AllKept(p, q);
  }

  /** gs_lptpage_set_skip. */
  function SkipWritten(p: Page, s: seq<Byte>): Page
    requires |s| < SKIP_MAXLEN
  {
    WithFlag(WithBytes(WithInt(WithBytes(p, HEADER_LEN, Zeros(SKIP_MAXLEN)), SKIPLEN_OFS, |s|), HEADER_LEN, s), 1)
  }

  lemma SkipWrittenIs(p: Page, s: seq<Byte>)
    requires PageOk(p) && |s| < SKIP_MAXLEN
    ensures var q := SkipWritten(p, s);
            PageOk(q) && ContentOf(q) == ContentOf(p).(skip := s) && Number(q) == Number(p)
  {
    var p1 := WithBytes(p, HEADER_LEN, Zeros(SKIP_MAXLEN));
    var p2 := WithInt(p1, SKIPLEN_OFS, |s|);
    var p3 := WithBytes(p2, HEADER_LEN, s);
    var q := WithFlag(p3, 1);
    IntRead(p1, SKIPLEN_OFS, |s|);
    BytesKept(p2, HEADER_LEN, s, SKIPLEN_OFS);
    FlagKept(p3, SKIPLEN_OFS);
    hide IntAt, WithInt;
    assert q[HEADER_LEN..HEADER_LEN + |s|] == p3[HEADER_LEN..HEADER_LEN + |s|];
    IntAgrees(p, q, SKIPCNODE_OFS);
    IntAgrees(p, q, SKIPINODE_OFS);
    SameRest(p, q);
  }

  /** Writes to the header fields before the free start and to the skip string touch no bucket and no leaf. */
  lemma SameRest(p: Page, q: Page)
    requires PageOk(p) && IntAt(q, SKIPLEN_OFS) < SKIP_MAXLEN
    requires forall k :: 0 <= k < PAGE_SIZE && Unskipped(k) ==> q[k] == p[k]
    ensures PageOk(q) && Number(q) == Number(p) && ContentOf(q).buckets == ContentOf(p).buckets
    ensures IntAt(q, PNUM_OFS) == IntAt(p, PNUM_OFS) && q[PCHAR_OFS] == p[PCHAR_OFS]
  {
    IntAgrees(p, q, FREESTART_OFS);
    IntAgrees(p, q, NUM_OFS);
    IntAgrees(p, q, PNUM_OFS);
    hide IntAt;
    forall k: Key ensures KeptBucket(p, q, k, IntAt(p, FREESTART_OFS)) {
      SameBucket(p, q, k, IntAt(p, FREESTART_OFS));
    }
    AllKept(p, q);
  }

  predicate Unskipped(k: nat) {
    k != CHGFLAG_OFS && !(SKIPLEN_OFS <= k < FREESTART_OFS) && !(HEADER_LEN <= k < BUCKETS_OFS)
  }

  lemma AllKept(p: Page, q: Page)
    requires PageOk(p) && IntAt(q, FREESTART_OFS) == IntAt(p, FREESTART_OFS) && IntAt(q, SKIPLEN_OFS) < SKIP_MAXLEN
    requires forall k: Key :: KeptBucket(p, q, k, IntAt(p, FREESTART_OFS))
    ensures PageOk(q) && ContentOf(q).buckets == ContentOf(p).buckets
  {
    var free := IntAt(p, FREESTART_OFS);
    hide IntAt, BucketOfs, BucketAt;
    forall k: Key
      ensures q[BucketOfs(k)] <= 1 && (IsLeaf(q, k) ==> LeafOk(q, k, free)) && BucketAt(q, k) == BucketAt(p, k)
    {
      assert KeptBucket(p, q, k, free);
    }
    forall j: Key, k: Key | j != k && IsLeaf(q, j) && IsLeaf(q, k) ensures Apart(q, j, k) {
      assert KeptBucket(p, q, j, free) && KeptBucket(p, q, k, free);
      assert Apart(p, j, k);
    }
  }

  lemma LeafInPage(p: Page, key: Key)
    requires PageOk(p)
    ensures IsLeaf(p, key) ==>
              LeafOk(p, key, PAGE_SIZE - 1) && LeafEnd(p, key) == RefAt(p, key) + 12 + IntAt(p, RefAt(p, key) + 8)
  {
  }

  lemma LeafOf(p: Page, key: Key)
    requires PageOk(p) && ContentOf(p).buckets[key].Leaf?
    ensures IsLeaf(p, key) && RefAt(p, key) + 12 <= PAGE_SIZE
  {
    assert ContentOf(p).buckets[key] == BucketAt(p, key);
    LeafInPage(p, key);
  }

  lemma FreeInRange(p: Page)
    requires PageOk(p)
    ensures LEAVES_OFS <= IntAt(p, FREESTART_OFS) < PAGE_SIZE
  {
  }

  lemma BucketInPage(key: Key)
    ensures HEADER_LEN + SKIP_MAXLEN <= BucketOfs(key) && BucketOfs(key) + BUCKET_SIZE <= LEAVES_OFS
  {
  }

  lemma InsertionNumber(p: Page, q: Page, key: Key, free: nat, size: nat)
    requires OnlyLeafWritten(p, q, key, free, size) && LEAVES_OFS <= free
    ensures Number(q) == Number(p)
  {
    IntAgrees(p, q, NUM_OFS);
  }

  lemma BlankPage(n: nat)
    requires 0 < n < INT_LIMIT
    ensures var q := FreeWritten(Blank(n), LEAVES_OFS);
            && PageOk(q) && Number(q) == n
            && ContentOf(q).skip == [] && ContentOf(q).skipC == 0 && ContentOf(q).skipI == 0
            && forall k: Key :: k in ContentOf(q).buckets && ContentOf(q).buckets[k] == Empty
  {
    var p := Blank(n);
    var p1 := WithInt(p, FREESTART_OFS, LEAVES_OFS);
    var q := WithFlag(p1, 1);
    BlankIs(n);
    IntRead(p, FREESTART_OFS, LEAVES_OFS);
    FlagKept(p1, FREESTART_OFS);
    IntAgrees(p, q, NUM_OFS);
    assert forall k | NUM_OFS + 4 <= k < PAGE_SIZE && k != CHGFLAG_OFS && !(FREESTART_OFS <= k < FREESTART_OFS + 4) ::
        q[k] == 0;
    forall k: Key ensures !IsLeaf(q, k) && RefAt(q, k) == 0 { }
  }
}
