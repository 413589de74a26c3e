/**
 The flat byte-key store as a representation of the recipients' mailboxes.

 `Agree(db, w)` says that the store `db` holds exactly the entries of the mailboxes `w` and
 nothing else. Every single write or delete of a key is shown to change one family of one
 mailbox, and every range scan to list the entries that it is meant to list.
 */
module FlatStore {
  import opened ByteOrder
  import opened Options
  import opened Ascending
  import opened Decimal
  import opened Keys
  import opened Mailboxes

  type World = map<Bytes, Mailbox>

  function Box(w: World, r: Bytes): Mailbox
  {
    if r in w then w[r] else EMPTY
  }

  /** A stored value: a JSON document or text. */
  datatype Value = Json(message: StoredMessage) | Text(text: Bytes)

  type Db = map<Bytes, Value>

  /** What an entry of a mailbox holds. */
  datatype Content = Message(message: StoredMessage) | Number(n: Num) | Present

  predicate Storable(c: Content)
  {
    c.Number? ==> IsUint64(c.n)
  }

  function EncodeContent(c: Content): Value
    requires Storable(c)
  {
    match c
    case Message(m) => Json(m)
    case Number(n) => Text(FormatUint(n))
    case Present => Text([])
  }

  predicate IsCounter(k: Key) { k.SeqK? || k.DeliveredK? || k.AckedK? }

  /** The entry of a mailbox that a key stands for. */
  function Lookup(b: Mailbox, k: Key): Option<Content>
  {
    match k
    case MsgK(_, n) => if n in b.msgs then Some(Message(StoredMessage(n, b.msgs[n]))) else None
    case DupK(_, id) => if id in b.dup then Some(Number(b.dup[id])) else None
    case ExpK(e, _, n) => if ExpEntry(e, n) in b.exp then Some(Present) else None
    case SeqK(_) => Some(Number(b.last))
    case DeliveredK(_) => Some(Number(b.delivered))
    case AckedK(_) => Some(Number(b.acked))
  }

  /** Every number fits its key, so every entry has a key and every value a text. */
  ghost predicate WellFormed(b: Mailbox)
  {
    && (forall n | n in b.msgs :: IsUint64(n) && IsInt64(b.msgs[n].expireAt))
    && (forall id | id in b.dup :: IsUint64(b.dup[id]))
    && (forall e | e in b.exp :: IsInt64(e.expireAt) && IsUint64(e.storeSeq))
    && IsUint64(b.last) && IsUint64(b.delivered) && IsUint64(b.acked)
  }

  ghost predicate WorldWellFormed(w: World)
  {
    forall r | r in w :: SlashFree(r) && WellFormed(w[r])
  }

  /** The store holds `c` under `k`; a counter that is absent reads as zero. */
  ghost predicate Slot(db: Db, k: Key, c: Option<Content>)
  {
    if Encode(k) in db then c.Some? && Storable(c.value) && db[Encode(k)] == EncodeContent(c.value)
    else if IsCounter(k) then c == Some(Number(0))
    else c == None
  }

  ghost predicate Stands(x: Bytes, k: Key)
  {
    ValidKey(k) && Encode(k) == x
  }

  ghost predicate Agree(db: Db, w: World)
  {
    && WorldWellFormed(w)
    && (forall k | ValidKey(k) :: Slot(db, k, Lookup(Box(w, k.r), k)))
    && (forall x | x in db :: exists k :: Stands(x, k))
  }

  lemma EmptyAgrees()
    ensures Agree(map[], map[])
  {
  }

  /***** Single writes *****/

  /** Writing one key changes one entry. */
  lemma PutAgrees(db: Db, w: World, k: Key, c: Content, w': World)
    requires Agree(db, w) && ValidKey(k) && Storable(c) && WorldWellFormed(w')
    requires Lookup(Box(w', k.r), k) == Some(c)
    requires forall j | ValidKey(j) && j != k :: Lookup(Box(w', j.r), j) == Lookup(Box(w, j.r), j)
    ensures Agree(db[Encode(k) := EncodeContent(c)], w')
  {
    hide Encode, Lookup, EncodeContent, Box, WorldWellFormed;
    var db' := db[Encode(k) := EncodeContent(c)];
    forall j | ValidKey(j) ensures Slot(db', j, Lookup(Box(w', j.r), j)) {
      if Encode(j) == Encode(k) {
        EncodeInjective(j, k);
      } else {
        assert Slot(db, j, Lookup(Box(w, j.r), j));
      }
    }
    forall x | x in db' ensures exists j :: Stands(x, j) {
      if x == Encode(k) { assert Stands(x, k); }
    }
  }

  /** Deleting one key removes one entry, and deleting an absent one changes nothing. */
  lemma EraseAgrees(db: Db, w: World, k: Key, w': World)
    requires Agree(db, w) && ValidKey(k) && !IsCounter(k) && WorldWellFormed(w')
    requires Lookup(Box(w', k.r), k) == None
    requires forall j | ValidKey(j) && j != k :: Lookup(Box(w', j.r), j) == Lookup(Box(w, j.r), j)
    ensures Agree(db - {Encode(k)}, w')
  {
    hide Encode, Lookup, EncodeContent, Box, WorldWellFormed;
    var db' := db - {Encode(k)};
    forall j | ValidKey(j) ensures Slot(db', j, Lookup(Box(w', j.r), j)) {
      if Encode(j) == Encode(k) {
        EncodeInjective(j, k);
      } else {
        assert Slot(db, j, Lookup(Box(w, j.r), j));
      }
    }
  }

  /** A write that changes one entry of one mailbox. */
  lemma PutBox(db: Db, w: World, k: Key, c: Content, b': Mailbox)
    requires Agree(db, w) && ValidKey(k) && Storable(c) && WellFormed(b') && Lookup(b', k) == Some(c)
    requires forall j | ValidKey(j) && j.r == k.r && j != k :: Lookup(b', j) == Lookup(Box(w, k.r), j)
    ensures Agree(db[Encode(k) := EncodeContent(c)], w[k.r := b'])
  {
    hide Encode, Slot, Lookup, WellFormed, EncodeContent;
    PutAgrees(db, w, k, c, w[k.r := b']);
  }

  lemma EraseBox(db: Db, w: World, k: Key, b': Mailbox)
    requires Agree(db, w) && ValidKey(k) && !IsCounter(k) && WellFormed(b') && Lookup(b', k) == None
    requires forall j | ValidKey(j) && j.r == k.r && j != k :: Lookup(b', j) == Lookup(Box(w, k.r), j)
    ensures Agree(db - {Encode(k)}, w[k.r := b'])
  {
    hide Encode, Slot, Lookup, WellFormed;
    EraseAgrees(db, w, k, w[k.r := b']);
  }

  lemma BoxWellFormed(db: Db, w: World, r: Bytes)
    requires Agree(db, w)
    ensures WellFormed(Box(w, r))
  {
  }

  /** A live message is stored as its JSON document. */
  lemma MsgValue(db: Db, w: World, r: Bytes, n: Num)
    requires Agree(db, w) && SlashFree(r) && n in Box(w, r).msgs
    ensures IsUint64(n) && MsgKey(r, n) in db && db[MsgKey(r, n)] == Json(StoredMessage(n, Box(w, r).msgs[n]))
  {
    BoxWellFormed(db, w, r);
    assert Slot(db, MsgK(r, n), Lookup(Box(w, r), MsgK(r, n)));
  }

  lemma PutMsg(db: Db, w: World, r: Bytes, m: StoredMessage)
    requires Agree(db, w) && SlashFree(r) && IsUint64(m.storeSeq) && IsInt64(m.entry.expireAt)
    ensures Agree(db[MsgKey(r, m.storeSeq) := Json(m)],
                  w[r := Box(w, r).(msgs := Box(w, r).msgs[m.storeSeq := m.entry])])
  {
    hide Agree, FormatUint, Pad20, Slot;
    BoxWellFormed(db, w, r);
    PutBox(db, w, MsgK(r, m.storeSeq), Message(m), Box(w, r).(msgs := Box(w, r).msgs[m.storeSeq := m.entry]));
  }

  lemma PutDup(db: Db, w: World, r: Bytes, id: Bytes, n: Num)
    requires Agree(db, w) && SlashFree(r) && IsUint64(n)
    ensures Agree(db[DupKey(r, id) := Text(FormatUint(n))], w[r := Box(w, r).(dup := Box(w, r).dup[id := n])])
  {
    hide Agree, FormatUint, Pad20, Slot;
    BoxWellFormed(db, w, r);
    PutBox(db, w, DupK(r, id), Number(n), Box(w, r).(dup := Box(w, r).dup[id := n]));
  }

  lemma PutExp(db: Db, w: World, r: Bytes, e: int, n: Num)
    requires Agree(db, w) && SlashFree(r) && IsInt64(e) && IsUint64(n)
    ensures Agree(db[ExpKey(e, r, n) := Text([])], w[r := Box(w, r).(exp := Box(w, r).exp + {ExpEntry(e, n)})])
  {
    hide Agree, FormatUint, Pad20, Slot;
    BoxWellFormed(db, w, r);
    PutBox(db, w, ExpK(e, r, n), Present, Box(w, r).(exp := Box(w, r).exp + {ExpEntry(e, n)}));
  }

  lemma PutLast(db: Db, w: World, r: Bytes, n: Num)
    requires Agree(db, w) && SlashFree(r) && IsUint64(n)
    ensures Agree(db[SeqKey(r) := Text(FormatUint(n))], w[r := Box(w, r).(last := n)])
  {
    hide Agree, FormatUint, Pad20, Slot;
    BoxWellFormed(db, w, r);
    PutBox(db, w, SeqK(r), Number(n), Box(w, r).(last := n));
  }

  lemma PutDelivered(db: Db, w: World, r: Bytes, n: Num)
    requires Agree(db, w) && SlashFree(r) && IsUint64(n)
    ensures Agree(db[DeliveredKey(r) := Text(FormatUint(n))], w[r := Box(w, r).(delivered := n)])
  {
    hide Agree, FormatUint, Pad20, Slot;
    BoxWellFormed(db, w, r);
    PutBox(db, w, DeliveredK(r), Number(n), Box(w, r).(delivered := n));
  }

  lemma PutAcked(db: Db, w: World, r: Bytes, n: Num)
    requires Agree(db, w) && SlashFree(r) && IsUint64(n)
    ensures Agree(db[AckedKey(r) := Text(FormatUint(n))], w[r := Box(w, r).(acked := n)])
  {
    hide Agree, FormatUint, Pad20, Slot;
    BoxWellFormed(db, w, r);
    PutBox(db, w, AckedK(r), Number(n), Box(w, r).(acked := n));
  }

  lemma EraseMsg(db: Db, w: World, r: Bytes, n: Num)
    requires Agree(db, w) && SlashFree(r) && IsUint64(n)
    ensures Agree(db - {MsgKey(r, n)}, w[r := Box(w, r).(msgs := Box(w, r).msgs - {n})])
  {
    hide Agree, FormatUint, Pad20, Slot;
    BoxWellFormed(db, w, r);
    EraseBox(db, w, MsgK(r, n), Box(w, r).(msgs := Box(w, r).msgs - {n}));
  }

  lemma EraseDup(db: Db, w: World, r: Bytes, id: Bytes)
    requires Agree(db, w) && SlashFree(r)
    ensures Agree(db - {DupKey(r, id)}, w[r := Box(w, r).(dup := Box(w, r).dup - {id})])
  {
    hide Agree, FormatUint, Pad20, Slot;
    BoxWellFormed(db, w, r);
    EraseBox(db, w, DupK(r, id), Box(w, r).(dup := Box(w, r).dup - {id}));
  }

  lemma EraseExp(db: Db, w: World, r: Bytes, e: int, n: Num)
    requires Agree(db, w) && SlashFree(r) && IsInt64(e) && IsUint64(n)
    ensures Agree(db - {ExpKey(e, r, n)}, w[r := Box(w, r).(exp := Box(w, r).exp - {ExpEntry(e, n)})])
  {
    hide Agree, FormatUint, Pad20, Slot;
    BoxWellFormed(db, w, r);
    EraseBox(db, w, ExpK(e, r, n), Box(w, r).(exp := Box(w, r).exp - {ExpEntry(e, n)}));
  }

  /***** Scans *****/

  function From(b: Mailbox, lo: Num): set<Num>
  {
    set n | n in b.msgs && lo <= n
  }

  function MsgKeys(r: Bytes, ns: seq<Num>): (ks: seq<Bytes>)
    ensures |ks| == |ns| && forall i | 0 <= i < |ns| :: ks[i] == MsgKey(r, ns[i])
  {
    seq(|ns|, i requires 0 <= i < |ns| => MsgKey(r, ns[i]))
  }

  lemma MsgKeysSorted(r: Bytes, ns: seq<Num>)
    requires Increasing(ns) && forall i | 0 <= i < |ns| :: IsUint64(ns[i])
    ensures Sorted(MsgKeys(r, ns))
  {
    forall i, j | 0 <= i < j < |ns| ensures Less(MsgKeys(r, ns)[i], MsgKeys(r, ns)[j]) {
      MsgKeyOrder(r, ns[i], ns[j]);
    }
  }

  /** The lower bound of a scan that starts at message `lo`, which is zero for a whole prefix scan. */
  ghost predicate MsgLowerBound(bound: Bytes, r: Bytes, lo: Num)
  {
    IsUint64(lo) && (bound == MsgKey(r, lo) || (lo == 0 && bound == MsgPrefix(r)))
  }

  lemma MsgScanHolds(db: Db, w: World, r: Bytes, bound: Bytes, lo: Num, x: Bytes)
    requires Agree(db, w) && SlashFree(r) && MsgLowerBound(bound, r, lo)
    ensures x in db && !Less(x, bound) && Less(x, PrefixUpperBound(MsgPrefix(r)))
       <==> exists n :: n in From(Box(w, r), lo) && MsgKey(r, n) == x
  {
    BoxWellFormed(db, w, r);
    if x in db && !Less(x, bound) && Less(x, PrefixUpperBound(MsgPrefix(r))) {
      var k :| Stands(x, k);
      MsgRange(r, k);
      MsgRangeFrom(r, lo, k);
      assert Slot(db, k, Lookup(Box(w, r), k));
      assert k.n in From(Box(w, r), lo);
    }
    if n :| n in From(Box(w, r), lo) && MsgKey(r, n) == x {
      var k := MsgK(r, n);
      MsgRange(r, k);
      MsgRangeFrom(r, lo, k);
      assert Slot(db, k, Lookup(Box(w, r), k));
    }
  }

  /** A message scan yields the recipient's messages from `lo` on, in sequence-number order. */
  lemma MsgScan(db: Db, w: World, r: Bytes, bound: Bytes, lo: Num, ks: seq<Bytes>)
    requires Agree(db, w) && SlashFree(r) && MsgLowerBound(bound, r, lo)
    requires IsScan(ks, db.Keys, bound, PrefixUpperBound(MsgPrefix(r)))
    ensures ks == MsgKeys(r, Asc(From(Box(w, r), lo)))
  {
    var from := From(Box(w, r), lo);
    var ns := Asc(from);
    BoxWellFormed(db, w, r);
    AscIncreasing(from);
    AscElements(from);
    MsgKeysSorted(r, ns);
    forall x ensures x in ks <==> x in MsgKeys(r, ns) {
      MsgScanHolds(db, w, r, bound, lo, x);
      if n :| n in from && MsgKey(r, n) == x {
        var i := AscFind(from, n);
        assert MsgKeys(r, ns)[i] == x;
      }
    }
    SortedUnique(ks, MsgKeys(r, ns));
  }

  /** An expired entry found by a scan. */
  datatype Ref = Ref(expireAt: int, r: Bytes, storeSeq: Num)

  /** An expiry time that a scan at `now` collects: it is due, and the scanned range holds it. */
  predicate Collectable(now: int, e: int)
  {
    e <= now && InExpRange(now, e)
  }

  ghost predicate Indexed(w: World, ref: Ref)
  {
    ref.r in w && ExpEntry(ref.expireAt, ref.storeSeq) in w[ref.r].exp
  }

  ghost predicate IsDue(w: World, now: int, ref: Ref)
  {
    Indexed(w, ref) && Collectable(now, ref.expireAt)
  }

  function RefKey(ref: Ref): Bytes { ExpKey(ref.expireAt, ref.r, ref.storeSeq) }

  /** Every key of an expiry scan is an index entry in its range, and parses back to it. */
  lemma ExpScanHolds(db: Db, w: World, now: int, x: Bytes)
    requires Agree(db, w)
    ensures x in db && !Less(x, ExpLowerBound()) && Less(x, ExpUpperBound(now))
       ==> exists ref :: Indexed(w, ref) && InExpRange(now, ref.expireAt) && RefKey(ref) == x
                         && ParseExpKey(x) == Some((ref.expireAt, ref.r, ref.storeSeq))
  {
    if x in db && !Less(x, ExpLowerBound()) && Less(x, ExpUpperBound(now)) {
      var k :| Stands(x, k);
      ExpRange(now, k);
      assert Slot(db, k, Lookup(Box(w, k.r), k));
      ParseExpKeyInverse(k.e, k.r, k.n);
      var ref := Ref(k.e, k.r, k.n);
      assert Indexed(w, ref) && RefKey(ref) == x;
    }
  }

  /** Every index entry in the range is in the scan. */
  lemma IndexedIsScanned(db: Db, w: World, now: int, ref: Ref)
    requires Agree(db, w) && Indexed(w, ref) && InExpRange(now, ref.expireAt)
    ensures RefKey(ref) in db && !Less(RefKey(ref), ExpLowerBound()) && Less(RefKey(ref), ExpUpperBound(now))
    ensures SlashFree(ref.r) && IsInt64(ref.expireAt) && IsUint64(ref.storeSeq)
  {
    var k := ExpK(ref.expireAt, ref.r, ref.storeSeq);
    assert WellFormed(w[ref.r]);
    assert Slot(db, k, Lookup(Box(w, k.r), k));
    ExpRange(now, k);
  }

  lemma DueIsScanned(db: Db, w: World, now: int, ref: Ref)
    requires Agree(db, w) && IsDue(w, now, ref)
    ensures RefKey(ref) in db && !Less(RefKey(ref), ExpLowerBound()) && Less(RefKey(ref), ExpUpperBound(now))
    ensures SlashFree(ref.r) && IsInt64(ref.expireAt) && IsUint64(ref.storeSeq)
  {
    hide Agree;
    IndexedIsScanned(db, w, now, ref);
  }
}
